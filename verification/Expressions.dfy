/** Expression trees of `planner/expr.go` and the columns of `planner/logical_plan_types.go`:
    evaluation under SQL's three-valued logic and the columns an expression reports. */
module Expressions {
  import opened Values

  datatype Option<T> = None | Some(value: T)

  datatype TableRef = TableRef(alias: string, refID: nat)

  predicate TableRefEquals(t: Option<TableRef>, other: Option<TableRef>) {
    if t.None? || other.None? then t == other
    else
      || t.value.refID == other.value.refID
      || ((t.value.refID == 0 || other.value.refID == 0) && t.value.alias == other.value.alias)
  }

  datatype LogicalColumn = LogicalColumn(cname: string, ctype: Type, origin: Option<TableRef>)

  function Lower(c: char): char {
    if 'A' <= c <= 'Z' then c - 'A' + 'a' else c
  }

  predicate EqualFold(a: string, b: string) {
    |a| == |b| && forall i :: 0 <= i < |a| ==> Lower(a[i]) == Lower(b[i])
  }

  predicate ColumnEquals(c: LogicalColumn, other: LogicalColumn) {
    EqualFold(c.cname, other.cname) && c.ctype == other.ctype && TableRefEquals(c.origin, other.origin)
  }

  /** Looking a column up and being looked up are the same comparison. */
  lemma ColumnEqualsSymmetric(c: LogicalColumn, d: LogicalColumn)
    ensures ColumnEquals(c, d) <==> ColumnEquals(d, c)
  {
  }

  /** `u` is the upper-case letter of `l`. */
  predicate IsUpperOf(u: char, l: char) {
    'A' <= u <= 'Z' && l as int == u as int + 32
  }

  /** Letter by letter the same, or the two cases of one letter. */
  predicate SameButCase(a: string, b: string) {
    && |a| == |b|
    && forall i :: 0 <= i < |a| ==> a[i] == b[i] || IsUpperOf(a[i], b[i]) || IsUpperOf(b[i], a[i])
  }

  lemma EqualFoldIgnoresCase(a: string, b: string)
    ensures EqualFold(a, b) <==> SameButCase(a, b)
  {
    if |a| == |b| {
      forall i | 0 <= i < |a|
        ensures Lower(a[i]) == Lower(b[i]) <==> a[i] == b[i] || IsUpperOf(a[i], b[i]) || IsUpperOf(b[i], a[i])
      {
        SameLetter(a[i], b[i]);
      }
    }
  }

  lemma SameLetter(a: char, b: char)
    ensures Lower(a) == Lower(b) <==> a == b || IsUpperOf(a, b) || IsUpperOf(b, a)
  {
  }

  /** Columns are told apart by name up to case, by type and by source: attached sources by
      their reference id, a source not attached to the plan by its alias. */
  lemma ColumnsToldApart(c: LogicalColumn, d: LogicalColumn)
    ensures !SameButCase(c.cname, d.cname) ==> !ColumnEquals(c, d)
    ensures c.ctype != d.ctype ==> !ColumnEquals(c, d)
    ensures c.origin.Some? != d.origin.Some? ==> !ColumnEquals(c, d)
    ensures SameButCase(c.cname, d.cname) && c.ctype == d.ctype && c.origin == d.origin ==> ColumnEquals(c, d)
    ensures SameButCase(c.cname, d.cname) && c.ctype == d.ctype && c.origin.Some? && d.origin.Some? ==>
      var x, y := c.origin.value, d.origin.value;
      && (x.refID != 0 && y.refID != 0 ==> (ColumnEquals(c, d) <==> x.refID == y.refID))
      && (x.refID == 0 && y.refID != 0 ==> (ColumnEquals(c, d) <==> x.alias == y.alias))
  {
    EqualFoldIgnoresCase(c.cname, d.cname);
  }

  type Schema = seq<LogicalColumn>

  predicate Contains(schema: Schema, target: LogicalColumn) {
    exists i :: 0 <= i < |schema| && ColumnEquals(schema[i], target)
  }

  /** The field a column is bound to: the first that equals it, or the schema's length. */
  function FieldOf(schema: Schema, c: LogicalColumn): (i: nat)
    ensures i <= |schema|
    ensures i < |schema| <==> Contains(schema, c)
    ensures i < |schema| ==> ColumnEquals(schema[i], c)
    ensures forall j :: 0 <= j < i ==> !ColumnEquals(schema[j], c)
  {
    if schema == [] then 0
    else if ColumnEquals(schema[0], c) then 0
    else
      var rest := FieldOf(schema[1..], c);
      assert forall j :: 1 <= j < |schema| ==> schema[j] == schema[1..][j - 1];
      1 + rest
  }

  /** A column whose name no other column has, up to case, is found at its own place. */
  lemma FieldOfUniqueName(schema: Schema, i: nat)
    requires i < |schema|
    requires forall j :: 0 <= j < |schema| && j != i ==> !SameButCase(schema[j].cname, schema[i].cname)
    ensures FieldOf(schema, schema[i]) == i
  {
    ColumnsToldApart(schema[i], schema[i]);
    var f := FieldOf(schema, schema[i]);
    assert ColumnEquals(schema[i], schema[i]);
    ColumnsToldApart(schema[f], schema[i]);
  }

  datatype Comparison = Equal | NotEqual | GreaterThan | LessThan | GreaterThanOrEqual | LessThanOrEqual
  datatype Logic = And | Or
  datatype NullTest = IsNullTest | IsNotNullTest
  datatype Arithmetic = Add | Sub | Mult | Div | Mod

  datatype Expr =
    | Column(col: LogicalColumn)
    | Bound(offset: nat)
    | Const(val: Value)
    | Compared(left: Expr, right: Expr, comp: Comparison)
    | BinaryLogic(left: Expr, right: Expr, logic: Logic)
    | Negation(child: Expr)
    | NullCheck(child: Expr, test: NullTest)
    | Arith(left: Expr, right: Expr, op: Arithmetic)
    | Concat(left: Expr, right: Expr)
    | Like(left: Expr, right: Expr)

  type Row = seq<Value>

  /** How LIKE matches a string against a pattern is left open. */
  type LikeMatch = (ByteString, ByteString) -> bool

  predicate ExprIsTrue(v: Value) {
    v.Int? && v.i != 0
  }

  predicate ExprIsFalse(v: Value) {
    v.Int? && v.i == 0
  }

  function Truth(b: bool): Value {
    Int(if b then 1 else 0)
  }

  function Holds(comp: Comparison, cmp: int): bool {
    match comp
    case Equal => cmp == 0
    case NotEqual => cmp != 0
    case GreaterThan => cmp > 0
    case LessThan => cmp < 0
    case GreaterThanOrEqual => cmp >= 0
    case LessThanOrEqual => cmp <= 0
  }

  function EvalLogic(logic: Logic, v: Value, w: Value): Value {
    match logic
    case And =>
      if ExprIsTrue(v) && ExprIsTrue(w) then Truth(true)
      else if ExprIsFalse(v) || ExprIsFalse(w) then Truth(false)
      else NullInt
    case Or =>
      if ExprIsTrue(v) || ExprIsTrue(w) then Truth(true)
      else if ExprIsFalse(v) && ExprIsFalse(w) then Truth(false)
      else NullInt
  }

  function EvalNot(v: Value): Value {
    if IsNull(v) then NullInt else Truth(!ExprIsTrue(v))
  }

  function EvalArith(op: Arithmetic, a: Int64, b: Int64): Value {
    match op
    case Add => Int(Wrap(a + b))
    case Sub => Int(Wrap(a - b))
    case Mult => Int(Wrap(a * b))
    case Div => if b == 0 then NullInt else Int(Wrap(Quotient(a, b)))
    case Mod => if b == 0 then NullInt else Int(Wrap(a - b * Quotient(a, b)))
  }

  /** Where the code stops with an assertion on a value of the wrong type, this returns
      NULL; `EvalHasType` shows that a well-typed expression never gets there. */
  function Eval(e: Expr, schema: Schema, row: Row, like: LikeMatch): Value {
    match e
    case Column(c) => var i := FieldOf(schema, c); if i < |row| then row[i] else NullInt
    case Bound(i) => if i < |row| then row[i] else NullInt
    case Const(v) => v
    case Compared(l, r, comp) =>
      var v, w := Eval(l, schema, row, like), Eval(r, schema, row, like);
      if IsNull(v) || IsNull(w) || TypeOf(v) != TypeOf(w) then NullInt else Truth(Holds(comp, Compare(v, w)))
    case BinaryLogic(l, r, logic) => EvalLogic(logic, Eval(l, schema, row, like), Eval(r, schema, row, like))
    case Negation(c) => EvalNot(Eval(c, schema, row, like))
    case NullCheck(c, test) => Truth(IsNull(Eval(c, schema, row, like)) == test.IsNullTest?)
    case Arith(l, r, op) =>
      var v, w := Eval(l, schema, row, like), Eval(r, schema, row, like);
      if v.Int? && w.Int? then EvalArith(op, v.i, w.i) else NullInt
    case Concat(l, r) =>
      var v, w := Eval(l, schema, row, like), Eval(r, schema, row, like);
      if v.Str? && w.Str? then Str(v.s + w.s) else NullString
    case Like(l, r) =>
      var v, w := Eval(l, schema, row, like), Eval(r, schema, row, like);
      if v.Str? && w.Str? then Truth(like(v.s, w.s)) else NullInt
  }

  /** False below unknown below true. */
  function Rank(v: Value): int {
    if v.Int? then (if v.i == 0 then 0 else 2) else 1
  }

  /** What the logical operators and tests give: 0, 1 or unknown. */
  predicate IsVerdict(v: Value) {
    v == Int(0) || v == Int(1) || v == NullInt
  }

  function Min(a: int, b: int): int {
    if a < b then a else b
  }

  /** AND is the minimum, OR the maximum and NOT the reversal of three-valued truth. */
  lemma LogicIsThreeValued(v: Value, w: Value)
    ensures Rank(EvalLogic(And, v, w)) == Min(Rank(v), Rank(w))
    ensures Rank(EvalLogic(Or, v, w)) == 2 - Min(2 - Rank(v), 2 - Rank(w))
    ensures TypeOf(v) == IntType ==> Rank(EvalNot(v)) == 2 - Rank(v)
    ensures IsVerdict(EvalLogic(And, v, w)) && IsVerdict(EvalLogic(Or, v, w)) && IsVerdict(EvalNot(v))
  {
  }

  /** The relation a comparison stands for. */
  ghost predicate Related(comp: Comparison, v: Value, w: Value) {
    match comp
    case Equal => v == w
    case NotEqual => v != w
    case LessThan => Before(v, w)
    case GreaterThan => Before(w, v)
    case LessThanOrEqual => v == w || Before(v, w)
    case GreaterThanOrEqual => v == w || Before(w, v)
  }

  /** A comparison with NULL is unknown; otherwise it is true exactly when its relation holds,
      and false exactly when it does not. */
  lemma ComparisonTruth(l: Expr, r: Expr, comp: Comparison, schema: Schema, row: Row, like: LikeMatch)
    requires TypeOf(Eval(l, schema, row, like)) == TypeOf(Eval(r, schema, row, like))
    ensures var v, w := Eval(l, schema, row, like), Eval(r, schema, row, like);
      Rank(Eval(Compared(l, r, comp), schema, row, like)) ==
        if IsNull(v) || IsNull(w) then 1 else if Related(comp, v, w) then 2 else 0
    ensures IsVerdict(Eval(Compared(l, r, comp), schema, row, like))
  {
    var v, w := Eval(l, schema, row, like), Eval(r, schema, row, like);
    CompareZero(v, w);
    CompareIsOrder(v, w);
  }

  /** The exact result of a 64-bit operation, before it is wrapped. */
  ghost predicate ExactResult(op: Arithmetic, a: int, b: int, x: int) {
    match op
    case Add => x == a + b
    case Sub => x == a - b
    case Mult => x == a * b
    case Div => b != 0 && var r := a - b * x; Abs(r) < Abs(b) && (a >= 0 ==> r >= 0) && (a <= 0 ==> r <= 0)
    case Mod =>
      b != 0 && Abs(x) < Abs(b) && (a >= 0 ==> x >= 0) && (a <= 0 ==> x <= 0) && exists q :: a == b * q + x
  }

  lemma ArithResult(op: Arithmetic, a: Int64, b: Int64) returns (x: int)
    requires b != 0 || (op != Div && op != Mod)
    ensures ExactResult(op, a, b, x) && EvalArith(op, a, b) == Int(Wrap(x))
  {
    match op
    case Add => x := a + b;
    case Sub => x := a - b;
    case Mult => x := a * b;
    case Div =>
      QuotientTruncates(a, b);
      x := Quotient(a, b);
    case Mod =>
      QuotientTruncates(a, b);
      x := a - b * Quotient(a, b);
      assert a == b * Quotient(a, b) + x;
  }

  /** Arithmetic is NULL on a NULL operand and on division by zero, and otherwise the 64-bit
      integer congruent to the exact result: sum, difference, product, the quotient truncated
      towards zero, or the remainder with the dividend's sign. */
  lemma ArithmeticMeaning(l: Expr, r: Expr, op: Arithmetic, schema: Schema, row: Row, like: LikeMatch)
    requires TypeOf(Eval(l, schema, row, like)) == TypeOf(Eval(r, schema, row, like)) == IntType
    ensures var v, w := Eval(l, schema, row, like), Eval(r, schema, row, like);
      var z := Eval(Arith(l, r, op), schema, row, like);
      && (IsNull(z) <==> IsNull(v) || IsNull(w) || ((op == Div || op == Mod) && w == Int(0)))
      && (!IsNull(z) ==>
            z.Int? && exists x :: ExactResult(op, v.i, w.i, x) && (x - z.i) % 0x1_0000_0000_0000_0000 == 0)
  {
    var v, w := Eval(l, schema, row, like), Eval(r, schema, row, like);
    if v.Int? && w.Int? && (w.i != 0 || (op != Div && op != Mod)) {
      var x := ArithResult(op, v.i, w.i);
      WrapIsCongruent(x, Wrap(x));
    }
  }

  /** A null check is never unknown. A concatenation is NULL on a NULL operand and otherwise
      the left string followed by the right one; LIKE is unknown on a NULL operand and
      otherwise says whether the right string's pattern matches the left one. */
  lemma TestsAndStrings(l: Expr, r: Expr, test: NullTest, schema: Schema, row: Row, like: LikeMatch)
    ensures Eval(NullCheck(l, test), schema, row, like) ==
      Int(if (test == IsNullTest) == IsNull(Eval(l, schema, row, like)) then 1 else 0)
    ensures TypeOf(Eval(l, schema, row, like)) == TypeOf(Eval(r, schema, row, like)) == StringType ==>
      var v, w := Eval(l, schema, row, like), Eval(r, schema, row, like);
      var c, m := Eval(Concat(l, r), schema, row, like), Eval(Like(l, r), schema, row, like);
      && (IsNull(v) || IsNull(w) ==> c == NullString && m == NullInt)
      && (!IsNull(v) && !IsNull(w) ==>
            && c.Str? && |c.s| == |v.s| + |w.s| && c.s[..|v.s|] == v.s && c.s[|v.s|..] == w.s
            && m == Int(if like(v.s, w.s) then 1 else 0))
  {
  }

  // Types.

  function OutputType(e: Expr, types: seq<Type>): Type {
    match e
    case Column(c) => c.ctype
    case Bound(i) => if i < |types| then types[i] else IntType
    case Const(v) => TypeOf(v)
    case Concat(_, _) => StringType
    case _ => IntType
  }

  predicate WellTyped(e: Expr, schema: Schema) {
    var types := Types(schema);
    match e
    case Column(c) => Contains(schema, c)
    case Bound(i) => i < |schema|
    case Const(_) => true
    case Compared(l, r, _) =>
      WellTyped(l, schema) && WellTyped(r, schema) && OutputType(l, types) == OutputType(r, types)
    case BinaryLogic(l, r, _) => WellTyped(l, schema) && WellTyped(r, schema)
    case Negation(c) => WellTyped(c, schema)
    case NullCheck(c, _) => WellTyped(c, schema)
    case Arith(l, r, _) =>
      WellTyped(l, schema) && WellTyped(r, schema) && OutputType(l, types) == IntType && OutputType(r, types) == IntType
    case Concat(l, r) =>
      WellTyped(l, schema) && WellTyped(r, schema) && OutputType(l, types) == OutputType(r, types) == StringType
    case Like(l, r) =>
      WellTyped(l, schema) && WellTyped(r, schema) && OutputType(l, types) == OutputType(r, types) == StringType
  }

  function Types(schema: Schema): seq<Type> {
    seq(|schema|, i requires 0 <= i < |schema| => schema[i].ctype)
  }

  predicate RowFits(row: Row, schema: Schema) {
    |row| == |schema| && forall i :: 0 <= i < |row| ==> TypeOf(row[i]) == schema[i].ctype
  }

  /** A well-typed expression on a fitting row yields a value of its declared type. */
  lemma {:induction false} EvalHasType(e: Expr, schema: Schema, row: Row, like: LikeMatch)
    requires WellTyped(e, schema) && RowFits(row, schema)
    ensures TypeOf(Eval(e, schema, row, like)) == OutputType(e, Types(schema))
  {
    match e
    case Column(c) => assert ColumnEquals(schema[FieldOf(schema, c)], c);
    case Negation(c) => EvalHasType(c, schema, row, like);
    case NullCheck(c, _) => EvalHasType(c, schema, row, like);
    case Bound(_) =>
    case Const(_) =>
    case _ =>
      EvalHasType(e.left, schema, row, like);
      EvalHasType(e.right, schema, row, like);
  }

  // Referenced columns.

  /** What `GetReferencedColumns` reports. A null check and a concatenation report nothing. */
  function GetReferencedColumns(e: Expr): seq<LogicalColumn> {
    match e
    case Column(c) => [c]
    case Bound(_) => []
    case Const(_) => []
    case Negation(c) => GetReferencedColumns(c)
    case NullCheck(_, _) => []
    case Concat(_, _) => []
    case _ => GetReferencedColumns(e.left) + GetReferencedColumns(e.right)
  }

  predicate CoversExpr(schema: Schema, e: Expr) {
    forall i :: 0 <= i < |GetReferencedColumns(e)| ==> Contains(schema, GetReferencedColumns(e)[i])
  }

  /** Logical expressions whose report is complete: no null check, no concatenation and
      no bound field anywhere inside. These are what the plan builder emits. */
  predicate ReportsAllColumns(e: Expr) {
    match e
    case Column(_) => true
    case Bound(_) => false
    case Const(_) => true
    case Negation(c) => ReportsAllColumns(c)
    case NullCheck(_, _) => false
    case Concat(_, _) => false
    case _ => ReportsAllColumns(e.left) && ReportsAllColumns(e.right)
  }

  function FieldValue(schema: Schema, row: Row, c: LogicalColumn): Value {
    Eval(Column(c), schema, row, (x, y) => false)
  }

  /** An expression depends on a row only through the columns it reports. */
  lemma {:induction false} EvalDependsOnReported(e: Expr, s1: Schema, r1: Row, s2: Schema, r2: Row, like: LikeMatch)
    requires ReportsAllColumns(e)
    requires forall c :: c in GetReferencedColumns(e) ==> FieldValue(s1, r1, c) == FieldValue(s2, r2, c)
    ensures Eval(e, s1, r1, like) == Eval(e, s2, r2, like)
  {
    if e.Column? {
      assert FieldValue(s1, r1, e.col) == FieldValue(s2, r2, e.col);
    } else if e.Negation? {
      EvalDependsOnReported(e.child, s1, r1, s2, r2, like);
    } else if !e.Const? {
      EvalDependsOnReported(e.left, s1, r1, s2, r2, like);
      EvalDependsOnReported(e.right, s1, r1, s2, r2, like);
    }
  }

  // Conjunctions.

  function SplitPredicate(e: Expr): seq<Expr> {
    if e.BinaryLogic? && e.logic == And then SplitPredicate(e.left) + SplitPredicate(e.right) else [e]
  }

  function MergePredicates(exprs: seq<Expr>): Expr
    requires exprs != []
  {
    if |exprs| == 1 then exprs[0]
    else BinaryLogic(MergePredicates(exprs[..|exprs| - 1]), exprs[|exprs| - 1], And)
  }

  /** `MergePredicates` with its loop, which `wrapInFilter` repeats; nil for no conditions. */
  method Merge(exprs: seq<Expr>) returns (merged: Option<Expr>)
    ensures merged == if exprs == [] then None else Some(MergePredicates(exprs))
  {
    if |exprs| == 0 {
      return None;
    }
    var root := exprs[0];
    var i := 1;
    assert exprs[..1] == [exprs[0]];
    while i < |exprs|
      invariant 1 <= i <= |exprs| && root == MergePredicates(exprs[..i])
    {
      assert exprs[..i + 1][..i] == exprs[..i];
      root := BinaryLogic(root, exprs[i], And);
      i := i + 1;
    }
    assert exprs[..i] == exprs;
    return Some(root);
  }

  /** A filter lets a row through exactly when all the conditions are true. */
  predicate AllTrue(preds: seq<Expr>, schema: Schema, row: Row, like: LikeMatch) {
    forall i :: 0 <= i < |preds| ==> ExprIsTrue(Eval(preds[i], schema, row, like))
  }

  lemma AllTrueConcat(p: seq<Expr>, q: seq<Expr>, schema: Schema, row: Row, like: LikeMatch)
    ensures AllTrue(p + q, schema, row, like) <==> AllTrue(p, schema, row, like) && AllTrue(q, schema, row, like)
  {
    if AllTrue(p + q, schema, row, like) {
      assert forall i :: 0 <= i < |p| ==> p[i] == (p + q)[i];
      assert forall i :: 0 <= i < |q| ==> q[i] == (p + q)[|p| + i];
    }
  }

  lemma {:induction false} SplitKeepsMeaning(e: Expr, schema: Schema, row: Row, like: LikeMatch)
    ensures ExprIsTrue(Eval(e, schema, row, like)) <==> AllTrue(SplitPredicate(e), schema, row, like)
  {
    if e.BinaryLogic? && e.logic == And {
      SplitKeepsMeaning(e.left, schema, row, like);
      SplitKeepsMeaning(e.right, schema, row, like);
      AllTrueConcat(SplitPredicate(e.left), SplitPredicate(e.right), schema, row, like);
    } else {
      assert SplitPredicate(e)[0] == e;
    }
  }

  lemma {:induction false} MergeKeepsMeaning(exprs: seq<Expr>, schema: Schema, row: Row, like: LikeMatch)
    requires exprs != []
    ensures ExprIsTrue(Eval(MergePredicates(exprs), schema, row, like)) <==> AllTrue(exprs, schema, row, like)
  {
    if |exprs| > 1 {
      var front, last := exprs[..|exprs| - 1], exprs[|exprs| - 1];
      MergeKeepsMeaning(front, schema, row, like);
      AllTrueConcat(front, [last], schema, row, like);
      assert exprs == front + [last];
      assert [last][0] == last;
    } else {
      assert exprs == [exprs[0]];
    }
  }

  lemma {:induction false} SplitReports(e: Expr)
    requires ReportsAllColumns(e)
    ensures SplitPredicate(e) != []
    ensures forall p :: p in SplitPredicate(e) ==> ReportsAllColumns(p)
    ensures forall p, c :: p in SplitPredicate(e) && c in GetReferencedColumns(p) ==> c in GetReferencedColumns(e)
  {
    if e.BinaryLogic? && e.logic == And {
      SplitReports(e.left);
      SplitReports(e.right);
    }
  }

  lemma {:induction false} MergeReports(exprs: seq<Expr>)
    requires exprs != [] && forall p :: p in exprs ==> ReportsAllColumns(p)
    ensures ReportsAllColumns(MergePredicates(exprs))
    ensures forall c :: c in GetReferencedColumns(MergePredicates(exprs)) ==>
      exists p :: p in exprs && c in GetReferencedColumns(p)
  {
    if |exprs| > 1 {
      var front, last := exprs[..|exprs| - 1], exprs[|exprs| - 1];
      MergeReports(front);
      forall c | c in GetReferencedColumns(MergePredicates(exprs))
        ensures exists p :: p in exprs && c in GetReferencedColumns(p)
      {
        if c in GetReferencedColumns(MergePredicates(front)) {
          var p :| p in front && c in GetReferencedColumns(p);
          assert p in exprs;
        } else {
          assert last in exprs && c in GetReferencedColumns(last);
        }
      }
    } else {
      assert exprs[0] in exprs;
    }
  }
}
