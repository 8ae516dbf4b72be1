/** Predicate pushdown preserves meaning, for all five join types and with NULLs. */
module PushdownMeaning {
  import opened Expressions
  import opened LogicalPlans
  import opened PredicatePushdown

  // What the plan builder guarantees.

  /** The column belongs to a table reference of the plan, or has no origin at all. */
  predicate Attached(c: LogicalColumn) {
    c.origin.Some? ==> c.origin.value.refID != 0
  }

  predicate Sound(e: Expr, schema: Schema) {
    ReportsAllColumns(e) && CoversExpr(schema, e) && forall c :: c in GetReferencedColumns(e) ==> Attached(c)
  }

  /** No column can be read as a column of both sides of a join. */
  ghost predicate Separate(sl: Schema, sr: Schema) {
    forall c :: Attached(c) && Contains(sl, c) ==> !Contains(sr, c)
  }

  predicate AllSound(es: seq<Expr>, schema: Schema) {
    forall e :: e in es ==> Sound(e, schema)
  }

  ghost predicate WellFormed(p: Plan) {
    match p
    case Scan(_, _, schema, preds) => AllSound(preds, schema)
    case Literal(_, _) => true
    case Filter(child, pred) => Sound(pred, OutputSchema(child)) && WellFormed(child)
    case Join(l, r, on, _) =>
      && AllSound(on, OutputSchema(l) + OutputSchema(r)) && Separate(OutputSchema(l), OutputSchema(r))
      && WellFormed(l) && WellFormed(r)
    case Projection(child, _, _) => WellFormed(child)
    case UnaryNode(_, child) => WellFormed(child)
  }

  /** Unique reference ids keep the two sides of a join apart. */
  lemma UniqueRefIDsSeparate(sl: Schema, sr: Schema)
    requires forall i :: 0 <= i < |sl| ==> sl[i].origin.Some? && sl[i].origin.value.refID != 0
    requires forall j :: 0 <= j < |sr| ==> sr[j].origin.Some? && sr[j].origin.value.refID != 0
    requires forall i, j :: 0 <= i < |sl| && 0 <= j < |sr| ==> sl[i].origin.value.refID != sr[j].origin.value.refID
    ensures Separate(sl, sr)
  {
    forall c | Attached(c) && Contains(sl, c)
      ensures !Contains(sr, c)
    {
      var i :| 0 <= i < |sl| && ColumnEquals(sl[i], c);
      forall j | 0 <= j < |sr|
        ensures !ColumnEquals(sr[j], c)
      {
        assert sl[i].origin.value.refID != sr[j].origin.value.refID;
      }
    }
  }

  // Reading a joined row through one side's schema.

  lemma FieldOfJoined(sl: Schema, sr: Schema, c: LogicalColumn)
    ensures FieldOf(sl + sr, c) == if Contains(sl, c) then FieldOf(sl, c) else |sl| + FieldOf(sr, c)
  {
    var s, i := sl + sr, FieldOf(sl + sr, c);
    assert forall j :: 0 <= j < |sl| ==> s[j] == sl[j];
    assert forall j :: 0 <= j < |sr| ==> s[|sl| + j] == sr[j];
    if Contains(sl, c) {
      assert ColumnEquals(s[FieldOf(sl, c)], c);
    } else if Contains(sr, c) {
      assert ColumnEquals(s[|sl| + FieldOf(sr, c)], c);
      assert i >= |sl|;
      assert ColumnEquals(sr[i - |sl|], c);
    } else {
      forall j | 0 <= j < |s|
        ensures !ColumnEquals(s[j], c)
      {
        assert s[j] == if j < |sl| then sl[j] else sr[j - |sl|];
      }
    }
  }

  lemma FieldValueOfJoined(sl: Schema, sr: Schema, l: Row, r: Row, c: LogicalColumn)
    requires |l| == |sl| && |r| == |sr|
    ensures Contains(sl, c) ==> FieldValue(sl + sr, l + r, c) == FieldValue(sl, l, c)
    ensures Contains(sr, c) && !Contains(sl, c) ==> FieldValue(sl + sr, l + r, c) == FieldValue(sr, r, c)
  {
    FieldOfJoined(sl, sr, c);
  }

  lemma LeftConditionOnJoined(e: Expr, sl: Schema, sr: Schema, l: Row, r: Row, like: LikeMatch)
    requires Sound(e, sl + sr) && CoversExpr(sl, e) && |l| == |sl| && |r| == |sr|
    ensures Eval(e, sl + sr, l + r, like) == Eval(e, sl, l, like)
  {
    forall c | c in GetReferencedColumns(e)
      ensures FieldValue(sl + sr, l + r, c) == FieldValue(sl, l, c)
    {
      FieldValueOfJoined(sl, sr, l, r, c);
    }
    EvalDependsOnReported(e, sl + sr, l + r, sl, l, like);
  }

  lemma RightConditionOnJoined(e: Expr, sl: Schema, sr: Schema, l: Row, r: Row, like: LikeMatch)
    requires Sound(e, sl + sr) && CoversExpr(sr, e) && Separate(sl, sr) && |l| == |sl| && |r| == |sr|
    ensures Eval(e, sl + sr, l + r, like) == Eval(e, sr, r, like)
  {
    forall c | c in GetReferencedColumns(e)
      ensures FieldValue(sl + sr, l + r, c) == FieldValue(sr, r, c)
    {
      assert Attached(c) && Contains(sr, c);
      FieldValueOfJoined(sl, sr, l, r, c);
    }
    EvalDependsOnReported(e, sl + sr, l + r, sr, r, like);
  }

  lemma AllTrueOne(e: Expr, schema: Schema, row: Row, like: LikeMatch)
    ensures AllTrue([e], schema, row, like) <==> ExprIsTrue(Eval(e, schema, row, like))
  {
    assert [e][0] == e;
  }

  lemma SentHolds(preds: seq<Expr>, t: JoinType, sl: Schema, sr: Schema, target: Target, schema: Schema, row: Row,
                  like: LikeMatch)
    requires preds != []
    ensures var front, last := preds[..|preds| - 1], preds[|preds| - 1];
      AllTrue(Sent(preds, t, sl, sr, target), schema, row, like) <==>
        && AllTrue(Sent(front, t, sl, sr, target), schema, row, like)
        && (TargetIn(t, sl, sr, last) == target ==> ExprIsTrue(Eval(last, schema, row, like)))
  {
    var front, last := preds[..|preds| - 1], preds[|preds| - 1];
    var sent := Sent(front, t, sl, sr, target);
    AllTrueConcat(sent, [last], schema, row, like);
    AllTrueOne(last, schema, row, like);
    assert sent + [] == sent;
  }

  /** The conjuncts of a filter hold on a joined row exactly when those sent to each side
      hold on that side's part and the others on the whole. */
  /** A conjunct holds on the joined row exactly if it holds where it is sent. */
  lemma SentConjunctHolds(e: Expr, t: JoinType, sl: Schema, sr: Schema, l: Row, r: Row, like: LikeMatch)
    requires Sound(e, sl + sr) && Separate(sl, sr) && |l| == |sl| && |r| == |sr|
    ensures ExprIsTrue(Eval(e, sl + sr, l + r, like)) <==>
      match TargetIn(t, sl, sr, e)
      case ToLeft => ExprIsTrue(Eval(e, sl, l, like))
      case ToRight => ExprIsTrue(Eval(e, sr, r, like))
      case _ => ExprIsTrue(Eval(e, sl + sr, l + r, like))
  {
    if TargetIn(t, sl, sr, e) == ToLeft {
      LeftConditionOnJoined(e, sl, sr, l, r, like);
    } else if TargetIn(t, sl, sr, e) == ToRight {
      RightConditionOnJoined(e, sl, sr, l, r, like);
    }
  }

  lemma {:induction false} PartsHold(preds: seq<Expr>, t: JoinType, sl: Schema, sr: Schema, l: Row, r: Row,
                                     like: LikeMatch)
    requires AllSound(preds, sl + sr) && Separate(sl, sr) && |l| == |sl| && |r| == |sr|
    ensures AllTrue(preds, sl + sr, l + r, like) <==>
      && AllTrue(Sent(preds, t, sl, sr, ToLeft), sl, l, like)
      && AllTrue(Sent(preds, t, sl, sr, ToRight), sr, r, like)
      && AllTrue(Sent(preds, t, sl, sr, ToJoin), sl + sr, l + r, like)
      && AllTrue(Sent(preds, t, sl, sr, ToKeep), sl + sr, l + r, like)
  {
    if preds != [] {
      var front, last := preds[..|preds| - 1], preds[|preds| - 1];
      PartsHold(front, t, sl, sr, l, r, like);
      assert preds == front + [last] && last in preds;
      AllTrueConcat(front, [last], sl + sr, l + r, like);
      AllTrueOne(last, sl + sr, l + r, like);
      SentHolds(preds, t, sl, sr, ToLeft, sl, l, like);
      SentHolds(preds, t, sl, sr, ToRight, sr, r, like);
      SentHolds(preds, t, sl, sr, ToJoin, sl + sr, l + r, like);
      SentHolds(preds, t, sl, sr, ToKeep, sl + sr, l + r, like);
      SentConjunctHolds(last, t, sl, sr, l, r, like);
    }
  }

  lemma {:induction false} SentMembers(preds: seq<Expr>, t: JoinType, sl: Schema, sr: Schema, target: Target)
    ensures forall e :: e in Sent(preds, t, sl, sr, target) ==> e in preds && TargetIn(t, sl, sr, e) == target
  {
    if preds != [] {
      var front, last := preds[..|preds| - 1], preds[|preds| - 1];
      SentMembers(front, t, sl, sr, target);
      assert preds == front + [last];
    }
  }

  /** A join type that sends nothing to a target, or everything to one. */
  lemma {:induction false} SentByType(preds: seq<Expr>, t: JoinType, sl: Schema, sr: Schema)
    ensures t == Inner || t == Cross ==> Sent(preds, t, sl, sr, ToKeep) == []
    ensures t == Left || t == FullOuter ==> Sent(preds, t, sl, sr, ToRight) == []
    ensures t == Right || t == FullOuter ==> Sent(preds, t, sl, sr, ToLeft) == []
    ensures t != Inner && t != Cross ==> Sent(preds, t, sl, sr, ToJoin) == []
    ensures t == FullOuter ==> Sent(preds, t, sl, sr, ToKeep) == preds
  {
    if preds != [] {
      var front, last := preds[..|preds| - 1], preds[|preds| - 1];
      SentByType(front, t, sl, sr);
      assert preds == front + [last];
    }
  }

  // Selections.

  lemma SelectFirst(row: Row, rest: seq<Row>, preds: seq<Expr>, schema: Schema, like: LikeMatch)
    ensures Select([row] + rest, preds, schema, like) ==
      (if AllTrue(preds, schema, row, like) then [row] else []) + Select(rest, preds, schema, like)
  {
    assert ([row] + rest)[1..] == rest;
  }

  lemma RowsAssociate(a: seq<Row>, b: seq<Row>, c: seq<Row>)
    ensures (a + b) + c == a + (b + c)
  {
  }

  lemma {:induction false} SelectConcat(a: seq<Row>, b: seq<Row>, preds: seq<Expr>, schema: Schema, like: LikeMatch)
    ensures Select(a + b, preds, schema, like) == Select(a, preds, schema, like) + Select(b, preds, schema, like)
  {
    if a == [] {
      assert a + b == b;
    } else {
      var first, rest := a[0], a[1..];
      SelectConcat(rest, b, preds, schema, like);
      assert a == [first] + rest && a + b == [first] + (rest + b);
      SelectFirst(first, rest, preds, schema, like);
      SelectFirst(first, rest + b, preds, schema, like);
      RowsAssociate(if AllTrue(preds, schema, first, like) then [first] else [],
                    Select(rest, preds, schema, like), Select(b, preds, schema, like));
    }
  }

  /** Conditions that agree on every row select the same rows. */
  lemma {:induction false} SelectSame(rows: seq<Row>, p: seq<Expr>, q: seq<Expr>, schema: Schema, like: LikeMatch)
    requires forall row :: row in rows ==> (AllTrue(p, schema, row, like) <==> AllTrue(q, schema, row, like))
    ensures Select(rows, p, schema, like) == Select(rows, q, schema, like)
  {
    if rows != [] {
      assert rows[0] in rows;
      SelectSame(rows[1..], p, q, schema, like);
    }
  }

  lemma {:induction false} SelectTwice(rows: seq<Row>, p: seq<Expr>, q: seq<Expr>, schema: Schema, like: LikeMatch)
    ensures Select(Select(rows, p, schema, like), q, schema, like) == Select(rows, p + q, schema, like)
  {
    if rows != [] {
      SelectTwice(rows[1..], p, q, schema, like);
      AllTrueConcat(p, q, schema, rows[0], like);
      var first := if AllTrue(p, schema, rows[0], like) then [rows[0]] else [];
      SelectConcat(first, Select(rows[1..], p, schema, like), q, schema, like);
      if first != [] {
        assert first[1..] == [];
      }
    }
  }

  /** A condition that is the same for all rows keeps all that the rest keeps, or nothing. */
  lemma {:induction false} SelectGuarded(rows: seq<Row>, p: seq<Expr>, guard: bool, q: seq<Expr>, schema: Schema,
                                         like: LikeMatch)
    requires forall row :: row in rows ==> (AllTrue(p, schema, row, like) <==> guard && AllTrue(q, schema, row, like))
    ensures Select(rows, p, schema, like) == if guard then Select(rows, q, schema, like) else []
  {
    if rows != [] {
      assert rows[0] in rows;
      SelectGuarded(rows[1..], p, guard, q, schema, like);
    }
  }

  lemma FilteredRows(p: Plan, preds: seq<Expr>, db: Database)
    ensures Rows(Filtered(p, preds), db) == Select(Rows(p, db), preds, OutputSchema(p), db.like)
    ensures OutputSchema(Filtered(p, preds)) == OutputSchema(p)
  {
    var rows, schema := Rows(p, db), OutputSchema(p);
    if preds == [] {
      SelectAll(rows, schema, db.like);
    } else {
      forall row | row in rows
        ensures AllTrue([MergePredicates(preds)], schema, row, db.like) <==> AllTrue(preds, schema, row, db.like)
      {
        MergeKeepsMeaning(preds, schema, row, db.like);
        assert [MergePredicates(preds)][0] == MergePredicates(preds);
      }
      SelectSame(rows, [MergePredicates(preds)], preds, schema, db.like);
    }
  }

  lemma {:induction false} SelectAll(rows: seq<Row>, schema: Schema, like: LikeMatch)
    ensures Select(rows, [], schema, like) == rows
  {
    if rows != [] {
      SelectAll(rows[1..], schema, like);
    }
  }

  lemma SplitRows(rows: seq<Row>, pred: Expr, schema: Schema, like: LikeMatch)
    ensures Select(rows, [pred], schema, like) == Select(rows, SplitPredicate(pred), schema, like)
  {
    forall row | row in rows
      ensures AllTrue([pred], schema, row, like) <==> AllTrue(SplitPredicate(pred), schema, row, like)
    {
      SplitKeepsMeaning(pred, schema, row, like);
      assert [pred][0] == pred;
    }
    SelectSame(rows, [pred], SplitPredicate(pred), schema, like);
  }

  // The five joins.

  /** One left row of an inner join. */
  lemma {:induction false} InnerBlock(preds: seq<Expr>, t: JoinType, sl: Schema, sr: Schema, l: Row, rs: seq<Row>,
                                      on: seq<Expr>, like: LikeMatch)
    requires AllSound(preds, sl + sr) && Separate(sl, sr) && |l| == |sl| && AllOfWidth(rs, |sr|)
    requires Sent(preds, t, sl, sr, ToKeep) == []
    ensures var block := MatchesOfLeft(l, rs, on, sl + sr, like);
      var conds := Sent(preds, t, sl, sr, ToJoin);
      Select(block, preds, sl + sr, like) ==
        if AllTrue(Sent(preds, t, sl, sr, ToLeft), sl, l, like)
        then MatchesOfLeft(l, Select(rs, Sent(preds, t, sl, sr, ToRight), sr, like), on + conds, sl + sr, like)
        else []
  {
    if rs != [] {
      var s, r, rest, conds := sl + sr, rs[0], rs[1..], Sent(preds, t, sl, sr, ToJoin);
      var rp := Sent(preds, t, sl, sr, ToRight);
      assert AllOfWidth(rest, |sr|);
      InnerBlock(preds, t, sl, sr, l, rest, on, like);
      PartsHold(preds, t, sl, sr, l, r, like);
      AllTrueConcat(on, conds, s, l + r, like);
      var first := if AllTrue(on, s, l + r, like) then [l + r] else [];
      SelectConcat(first, MatchesOfLeft(l, rest, on, s, like), preds, s, like);
      SelectOne(l + r, preds, s, like);
      MatchesOfSelected(l, r, rest, rp, sr, on + conds, s, like);
    }
  }

  lemma SelectOne(row: Row, preds: seq<Expr>, schema: Schema, like: LikeMatch)
    ensures Select([row], preds, schema, like) == if AllTrue(preds, schema, row, like) then [row] else []
    ensures Select([], preds, schema, like) == []
  {
    assert [row][1..] == [];
  }

  lemma MatchesOfSelected(l: Row, r: Row, rest: seq<Row>, rp: seq<Expr>, sr: Schema, on: seq<Expr>, s: Schema,
                          like: LikeMatch)
    ensures MatchesOfLeft(l, Select([r] + rest, rp, sr, like), on, s, like) ==
      (if AllTrue(rp, sr, r, like) && AllTrue(on, s, l + r, like) then [l + r] else [])
      + MatchesOfLeft(l, Select(rest, rp, sr, like), on, s, like)
  {
    SelectFirst(r, rest, rp, sr, like);
    var kept := Select(rest, rp, sr, like);
    if AllTrue(rp, sr, r, like) {
      assert ([r] + kept)[1..] == kept;
    } else {
      assert [] + kept == kept;
    }
  }

  lemma InnerOfSelected(l: Row, rest: seq<Row>, lp: seq<Expr>, sl: Schema, rs: seq<Row>, on: seq<Expr>, s: Schema,
                        like: LikeMatch)
    ensures InnerRows(Select([l] + rest, lp, sl, like), rs, on, s, like) ==
      (if AllTrue(lp, sl, l, like) then MatchesOfLeft(l, rs, on, s, like) else [])
      + InnerRows(Select(rest, lp, sl, like), rs, on, s, like)
  {
    SelectFirst(l, rest, lp, sl, like);
    var kept := Select(rest, lp, sl, like);
    if AllTrue(lp, sl, l, like) {
      assert ([l] + kept)[1..] == kept;
    } else {
      assert [] + kept == kept;
    }
  }

  lemma {:induction false} InnerPush(preds: seq<Expr>, t: JoinType, sl: Schema, sr: Schema, ls: seq<Row>, rs: seq<Row>,
                                     on: seq<Expr>, like: LikeMatch)
    requires AllSound(preds, sl + sr) && Separate(sl, sr) && AllOfWidth(ls, |sl|) && AllOfWidth(rs, |sr|)
    requires Sent(preds, t, sl, sr, ToKeep) == []
    ensures Select(InnerRows(ls, rs, on, sl + sr, like), preds, sl + sr, like) ==
      InnerRows(Select(ls, Sent(preds, t, sl, sr, ToLeft), sl, like),
                Select(rs, Sent(preds, t, sl, sr, ToRight), sr, like),
                on + Sent(preds, t, sl, sr, ToJoin), sl + sr, like)
  {
    if ls != [] {
      var s, l, rest := sl + sr, ls[0], ls[1..];
      var lp, rp, conds := Sent(preds, t, sl, sr, ToLeft), Sent(preds, t, sl, sr, ToRight),
                           Sent(preds, t, sl, sr, ToJoin);
      assert AllOfWidth(rest, |sl|);
      InnerPush(preds, t, sl, sr, rest, rs, on, like);
      InnerBlock(preds, t, sl, sr, l, rs, on, like);
      SelectConcat(MatchesOfLeft(l, rs, on, s, like), InnerRows(rest, rs, on, s, like), preds, s, like);
      InnerOfSelected(l, rest, lp, sl, Select(rs, rp, sr, like), on + conds, s, like);
      assert ls == [l] + rest;
    }
  }

  lemma {:induction false} MatchesAreJoined(l: Row, r: Row, ls: seq<Row>, rs: seq<Row>, on: seq<Expr>, schema: Schema,
                                            like: LikeMatch)
    ensures forall row :: row in MatchesOfLeft(l, rs, on, schema, like) ==> exists x :: x in rs && row == l + x
    ensures forall row :: row in MatchesOfRight(ls, r, on, schema, like) ==> exists x :: x in ls && row == x + r
    decreases |ls| + |rs|
  {
    if rs != [] {
      MatchesAreJoined(l, r, ls, rs[1..], on, schema, like);
      assert rs[0] in rs && forall x :: x in rs[1..] ==> x in rs;
    }
    if ls != [] {
      MatchesAreJoined(l, r, ls[1..], rs, on, schema, like);
      assert ls[0] in ls && forall x :: x in ls[1..] ==> x in ls;
    }
  }

  /** Above a one-sided outer join the conjuncts go to the preserved side or stay. */
  lemma OuterPartsHold(preds: seq<Expr>, t: JoinType, sl: Schema, sr: Schema, l: Row, r: Row, like: LikeMatch)
    requires t == Left || t == Right
    requires AllSound(preds, sl + sr) && Separate(sl, sr) && |l| == |sl| && |r| == |sr|
    ensures AllTrue(preds, sl + sr, l + r, like) <==>
      && (if t == Left then AllTrue(Sent(preds, t, sl, sr, ToLeft), sl, l, like)
          else AllTrue(Sent(preds, t, sl, sr, ToRight), sr, r, like))
      && AllTrue(Sent(preds, t, sl, sr, ToKeep), sl + sr, l + r, like)
  {
    SentByType(preds, t, sl, sr);
    PartsHold(preds, t, sl, sr, l, r, like);
  }

  /** One left row of a left outer join: its block is kept or dropped as a whole. */
  lemma LeftBlock(preds: seq<Expr>, sl: Schema, sr: Schema, l: Row, rs: seq<Row>, on: seq<Expr>, like: LikeMatch)
    requires AllSound(preds, sl + sr) && Separate(sl, sr) && |l| == |sl| && AllOfWidth(rs, |sr|)
    ensures var block := OrElse(MatchesOfLeft(l, rs, on, sl + sr, like), l + NullRow(sr));
      Select(block, preds, sl + sr, like) ==
        if AllTrue(Sent(preds, Left, sl, sr, ToLeft), sl, l, like)
        then Select(block, Sent(preds, Left, sl, sr, ToKeep), sl + sr, like) else []
  {
    var s, lp, keep := sl + sr, Sent(preds, Left, sl, sr, ToLeft), Sent(preds, Left, sl, sr, ToKeep);
    var block := OrElse(MatchesOfLeft(l, rs, on, s, like), l + NullRow(sr));
    MatchesAreJoined(l, [], [], rs, on, s, like);
    forall row | row in block
      ensures AllTrue(preds, s, row, like) <==> AllTrue(lp, sl, l, like) && AllTrue(keep, s, row, like)
    {
      var x :| row == l + x && |x| == |sr|;
      OuterPartsHold(preds, Left, sl, sr, l, x, like);
    }
    SelectGuarded(block, preds, AllTrue(lp, sl, l, like), keep, s, like);
  }

  lemma LeftOfSelected(l: Row, rest: seq<Row>, lp: seq<Expr>, sl: Schema, rs: seq<Row>, on: seq<Expr>, s: Schema,
                       blank: Row, like: LikeMatch)
    ensures LeftRows(Select([l] + rest, lp, sl, like), rs, on, s, blank, like) ==
      (if AllTrue(lp, sl, l, like) then OrElse(MatchesOfLeft(l, rs, on, s, like), l + blank) else [])
      + LeftRows(Select(rest, lp, sl, like), rs, on, s, blank, like)
  {
    SelectFirst(l, rest, lp, sl, like);
    var kept := Select(rest, lp, sl, like);
    if AllTrue(lp, sl, l, like) {
      assert ([l] + kept)[1..] == kept;
    } else {
      assert [] + kept == kept;
    }
  }

  /** Selecting from a kept or dropped block followed by the rest. */
  lemma SelectBlock(block: seq<Row>, rest: seq<Row>, guard: bool, p: seq<Expr>, q: seq<Expr>, tail: seq<Row>,
                    schema: Schema, like: LikeMatch)
    requires Select(block, p, schema, like) == if guard then Select(block, q, schema, like) else []
    requires Select(rest, p, schema, like) == Select(tail, q, schema, like)
    ensures Select(block + rest, p, schema, like) == Select((if guard then block else []) + tail, q, schema, like)
  {
    SelectConcat(block, rest, p, schema, like);
    SelectConcat(if guard then block else [], tail, q, schema, like);
  }

  lemma {:induction false} LeftPush(preds: seq<Expr>, sl: Schema, sr: Schema, ls: seq<Row>, rs: seq<Row>,
                                    on: seq<Expr>, like: LikeMatch)
    requires AllSound(preds, sl + sr) && Separate(sl, sr) && AllOfWidth(ls, |sl|) && AllOfWidth(rs, |sr|)
    ensures Select(LeftRows(ls, rs, on, sl + sr, NullRow(sr), like), preds, sl + sr, like) ==
      Select(LeftRows(Select(ls, Sent(preds, Left, sl, sr, ToLeft), sl, like), rs, on, sl + sr, NullRow(sr), like),
             Sent(preds, Left, sl, sr, ToKeep), sl + sr, like)
  {
    if ls != [] {
      var s, l, rest := sl + sr, ls[0], ls[1..];
      var lp, keep, blank := Sent(preds, Left, sl, sr, ToLeft), Sent(preds, Left, sl, sr, ToKeep), NullRow(sr);
      assert AllOfWidth(rest, |sl|);
      LeftPush(preds, sl, sr, rest, rs, on, like);
      LeftBlock(preds, sl, sr, l, rs, on, like);
      var block := OrElse(MatchesOfLeft(l, rs, on, s, like), l + blank);
      var tail := LeftRows(Select(rest, lp, sl, like), rs, on, s, blank, like);
      SelectBlock(block, LeftRows(rest, rs, on, s, blank, like), AllTrue(lp, sl, l, like), preds, keep, tail, s, like);
      LeftOfSelected(l, rest, lp, sl, rs, on, s, blank, like);
      assert ls == [l] + rest;
    }
  }

  lemma RightBlock(preds: seq<Expr>, sl: Schema, sr: Schema, ls: seq<Row>, r: Row, on: seq<Expr>, like: LikeMatch)
    requires AllSound(preds, sl + sr) && Separate(sl, sr) && |r| == |sr| && AllOfWidth(ls, |sl|)
    ensures var block := OrElse(MatchesOfRight(ls, r, on, sl + sr, like), NullRow(sl) + r);
      Select(block, preds, sl + sr, like) ==
        if AllTrue(Sent(preds, Right, sl, sr, ToRight), sr, r, like)
        then Select(block, Sent(preds, Right, sl, sr, ToKeep), sl + sr, like) else []
  {
    var s, rp, keep := sl + sr, Sent(preds, Right, sl, sr, ToRight), Sent(preds, Right, sl, sr, ToKeep);
    var block := OrElse(MatchesOfRight(ls, r, on, s, like), NullRow(sl) + r);
    MatchesAreJoined([], r, ls, [], on, s, like);
    forall row | row in block
      ensures AllTrue(preds, s, row, like) <==> AllTrue(rp, sr, r, like) && AllTrue(keep, s, row, like)
    {
      var x :| row == x + r && |x| == |sl|;
      OuterPartsHold(preds, Right, sl, sr, x, r, like);
    }
    SelectGuarded(block, preds, AllTrue(rp, sr, r, like), keep, s, like);
  }

  lemma RightOfSelected(ls: seq<Row>, r: Row, rest: seq<Row>, rp: seq<Expr>, sr: Schema, on: seq<Expr>, s: Schema,
                        blank: Row, like: LikeMatch)
    ensures RightRows(ls, Select([r] + rest, rp, sr, like), on, s, blank, like) ==
      (if AllTrue(rp, sr, r, like) then OrElse(MatchesOfRight(ls, r, on, s, like), blank + r) else [])
      + RightRows(ls, Select(rest, rp, sr, like), on, s, blank, like)
  {
    SelectFirst(r, rest, rp, sr, like);
    var kept := Select(rest, rp, sr, like);
    if AllTrue(rp, sr, r, like) {
      assert ([r] + kept)[1..] == kept;
    } else {
      assert [] + kept == kept;
    }
  }

  lemma {:induction false} RightPush(preds: seq<Expr>, sl: Schema, sr: Schema, ls: seq<Row>, rs: seq<Row>,
                                     on: seq<Expr>, like: LikeMatch)
    requires AllSound(preds, sl + sr) && Separate(sl, sr) && AllOfWidth(ls, |sl|) && AllOfWidth(rs, |sr|)
    ensures Select(RightRows(ls, rs, on, sl + sr, NullRow(sl), like), preds, sl + sr, like) ==
      Select(RightRows(ls, Select(rs, Sent(preds, Right, sl, sr, ToRight), sr, like), on, sl + sr, NullRow(sl), like),
             Sent(preds, Right, sl, sr, ToKeep), sl + sr, like)
  {
    if rs != [] {
      var s, r, rest := sl + sr, rs[0], rs[1..];
      var rp, keep, blank := Sent(preds, Right, sl, sr, ToRight), Sent(preds, Right, sl, sr, ToKeep), NullRow(sl);
      assert AllOfWidth(rest, |sr|);
      RightPush(preds, sl, sr, ls, rest, on, like);
      RightBlock(preds, sl, sr, ls, r, on, like);
      var block := OrElse(MatchesOfRight(ls, r, on, s, like), blank + r);
      var tail := RightRows(ls, Select(rest, rp, sr, like), on, s, blank, like);
      SelectBlock(block, RightRows(ls, rest, on, s, blank, like), AllTrue(rp, sr, r, like), preds, keep, tail, s, like);
      RightOfSelected(ls, r, rest, rp, sr, on, s, blank, like);
      assert rs == [r] + rest;
    }
  }

  /** Pushing a conjunction through one join, whatever its type. */
  lemma JoinPush(preds: seq<Expr>, t: JoinType, sl: Schema, sr: Schema, ls: seq<Row>, rs: seq<Row>, on: seq<Expr>,
                 like: LikeMatch)
    requires AllSound(preds, sl + sr) && Separate(sl, sr) && AllOfWidth(ls, |sl|) && AllOfWidth(rs, |sr|)
    ensures var conds := Sent(preds, t, sl, sr, ToJoin);
      Select(JoinRows(t, ls, rs, on, sl, sr, like), preds, sl + sr, like) ==
        Select(JoinRows(if t == Cross && conds != [] then Inner else t,
                        Select(ls, Sent(preds, t, sl, sr, ToLeft), sl, like),
                        Select(rs, Sent(preds, t, sl, sr, ToRight), sr, like), on + conds, sl, sr, like),
               Sent(preds, t, sl, sr, ToKeep), sl + sr, like)
  {
    var s := sl + sr;
    var lp, rp, conds, keep := Sent(preds, t, sl, sr, ToLeft), Sent(preds, t, sl, sr, ToRight),
                               Sent(preds, t, sl, sr, ToJoin), Sent(preds, t, sl, sr, ToKeep);
    SentByType(preds, t, sl, sr);
    assert on + [] == on;
    if t == Inner || t == Cross {
      InnerPush(preds, t, sl, sr, ls, rs, on, like);
      SelectAll(InnerRows(Select(ls, lp, sl, like), Select(rs, rp, sr, like), on + conds, s, like), s, like);
    } else if t == Left {
      LeftPush(preds, sl, sr, ls, rs, on, like);
      SelectAll(rs, sr, like);
    } else if t == Right {
      RightPush(preds, sl, sr, ls, rs, on, like);
      SelectAll(ls, sl, like);
    } else {
      SelectAll(ls, sl, like);
      SelectAll(rs, sr, like);
    }
  }

  // The rule and the driver.

  lemma JoinApplyKeepsRows(pred: Expr, l: Plan, r: Plan, on: seq<Expr>, t: JoinType, db: Database)
    requires WellFormed(Filter(Join(l, r, on, t), pred)) && Shaped(l, db) && Shaped(r, db)
    ensures Rows(PushedThroughJoin(pred, l, r, on, t), db) == Rows(Filter(Join(l, r, on, t), pred), db)
    ensures OutputSchema(PushedThroughJoin(pred, l, r, on, t)) == OutputSchema(l) + OutputSchema(r)
  {
    var preds, sl, sr := SplitPredicate(pred), OutputSchema(l), OutputSchema(r);
    var lp, rp, conds, keep := Sent(preds, t, sl, sr, ToLeft), Sent(preds, t, sl, sr, ToRight),
                               Sent(preds, t, sl, sr, ToJoin), Sent(preds, t, sl, sr, ToKeep);
    SplitRows(JoinRows(t, Rows(l, db), Rows(r, db), on, sl, sr, db.like), pred, sl + sr, db.like);
    RowsWidth(l, db);
    RowsWidth(r, db);
    SplitSound(pred, sl + sr);
    JoinPush(preds, t, sl, sr, Rows(l, db), Rows(r, db), on, db.like);
    FilteredRows(l, lp, db);
    FilteredRows(r, rp, db);
    FilteredRows(Join(Filtered(l, lp), Filtered(r, rp), on + conds, if t == Cross && conds != [] then Inner else t),
                 keep, db);
  }

  lemma SplitSound(e: Expr, schema: Schema)
    requires Sound(e, schema)
    ensures AllSound(SplitPredicate(e), schema)
  {
    SplitReports(e);
    forall p | p in SplitPredicate(e)
      ensures Sound(p, schema)
    {
      forall i | 0 <= i < |GetReferencedColumns(p)|
        ensures Contains(schema, GetReferencedColumns(p)[i])
      {
        assert GetReferencedColumns(p)[i] in GetReferencedColumns(e);
      }
    }
  }

  lemma SentSound(preds: seq<Expr>, t: JoinType, sl: Schema, sr: Schema)
    requires AllSound(preds, sl + sr)
    ensures AllSound(Sent(preds, t, sl, sr, ToLeft), sl)
    ensures AllSound(Sent(preds, t, sl, sr, ToRight), sr)
    ensures AllSound(Sent(preds, t, sl, sr, ToJoin), sl + sr)
    ensures AllSound(Sent(preds, t, sl, sr, ToKeep), sl + sr)
  {
    SentMembers(preds, t, sl, sr, ToLeft);
    SentMembers(preds, t, sl, sr, ToRight);
    SentMembers(preds, t, sl, sr, ToJoin);
    SentMembers(preds, t, sl, sr, ToKeep);
  }

  lemma MergeSound(preds: seq<Expr>, schema: Schema)
    requires preds != [] && AllSound(preds, schema)
    ensures Sound(MergePredicates(preds), schema)
  {
    MergeReports(preds);
    var merged := MergePredicates(preds);
    forall c | c in GetReferencedColumns(merged)
      ensures Contains(schema, c) && Attached(c)
    {
      var p :| p in preds && c in GetReferencedColumns(p);
      assert Sound(p, schema);
    }
  }

  lemma FilteredIsWellFormed(p: Plan, preds: seq<Expr>)
    requires WellFormed(p) && AllSound(preds, OutputSchema(p))
    ensures WellFormed(Filtered(p, preds)) && OutputSchema(Filtered(p, preds)) == OutputSchema(p)
  {
    if preds != [] {
      MergeSound(preds, OutputSchema(p));
    }
  }

  lemma JoinApplyIsWellFormed(pred: Expr, l: Plan, r: Plan, on: seq<Expr>, t: JoinType)
    requires WellFormed(Filter(Join(l, r, on, t), pred))
    ensures WellFormed(PushedThroughJoin(pred, l, r, on, t))
  {
    var preds, sl, sr := SplitPredicate(pred), OutputSchema(l), OutputSchema(r);
    SplitSound(pred, sl + sr);
    SentSound(preds, t, sl, sr);
    FilteredIsWellFormed(l, Sent(preds, t, sl, sr, ToLeft));
    FilteredIsWellFormed(r, Sent(preds, t, sl, sr, ToRight));
    var conds := Sent(preds, t, sl, sr, ToJoin);
    var join := Join(Filtered(l, Sent(preds, t, sl, sr, ToLeft)), Filtered(r, Sent(preds, t, sl, sr, ToRight)),
                     on + conds, if t == Cross && conds != [] then Inner else t);
    FilteredIsWellFormed(join, Sent(preds, t, sl, sr, ToKeep));
  }

  /** One application of the rule leaves the rows, their order and the schema unchanged. */
  lemma ApplyKeepsRows(p: Plan, db: Database)
    requires WellFormed(p) && Shaped(p, db)
    ensures Rows(Apply(p), db) == Rows(p, db)
    ensures OutputSchema(Apply(p)) == OutputSchema(p)
    ensures WellFormed(Apply(p)) && Shaped(Apply(p), db)
  {
    if p.Filter? && p.child.Scan? && CanPushToScan(p.condition, p.child.ref) {
      if p.child.oid in db.tables {
        SelectTwice(db.tables[p.child.oid], p.child.predicates, [p.condition], p.child.schema, db.like);
      }
    } else if p.Filter? && p.child.Join? {
      JoinApplyKeepsRows(p.condition, p.child.left, p.child.right, p.child.joinOn, p.child.joinType, db);
      JoinApplyIsWellFormed(p.condition, p.child.left, p.child.right, p.child.joinOn, p.child.joinType);
    }
  }

  /** Predicate pushdown as the driver runs it preserves meaning: on every database the
      optimized plan yields the same rows in the same order. */
  lemma {:induction false} OptimizeKeepsRows(p: Plan, db: Database)
    requires WellFormed(p) && Shaped(p, db)
    ensures Rows(Optimize(p), db) == Rows(p, db)
    ensures OutputSchema(Optimize(p)) == OutputSchema(p)
    ensures multiset(Rows(Optimize(p), db)) == multiset(Rows(p, db))
    decreases Operators(p), TopFilters(p)
  {
    ApplyKeepsRows(p, db);
    ApplyShrinks(p);
    var q := Apply(p);
    if q.Filter? || q.Projection? || q.UnaryNode? {
      OptimizeKeepsRows(q.child, db);
    } else if q.Join? {
      OptimizeKeepsRows(q.left, db);
      OptimizeKeepsRows(q.right, db);
    }
  }
}
