/** Logical plan trees and what they compute: for each plan and database the list of rows
    it yields, in nested-loop order, under three-valued logic. Equal lists are equal
    bags, and unlike bags they are also what a LIMIT or a stable sort above may see. */
module LogicalPlans {
  import opened Values
  import opened Expressions

  datatype JoinType = Inner | Left | Right | FullOuter | Cross

  /** The one-child nodes that predicate pushdown walks through without looking inside. */
  datatype Unary =
    | Sort(keys: seq<Expr>, descending: seq<bool>)
    | Limit(limit: int, offset: int)
    | Aggregation(groupBy: seq<Expr>, aggregates: seq<Expr>, aggSchema: Schema)
    | Subquery(ref: TableRef, subSchema: Schema)
    | Insert(oid: nat)
    | Delete(oid: nat)
    | Update(oid: nat, targets: seq<LogicalColumn>, updates: seq<Expr>)

  datatype Plan =
    | Scan(oid: nat, ref: TableRef, schema: Schema, predicates: seq<Expr>)
    | Literal(rows: seq<seq<Expr>>, schema: Schema)
    | Filter(child: Plan, condition: Expr)
    | Join(left: Plan, right: Plan, joinOn: seq<Expr>, joinType: JoinType)
    | Projection(child: Plan, exprs: seq<Expr>, schema: Schema)
    | UnaryNode(unary: Unary, child: Plan)

  const COUNT_SCHEMA: Schema := [LogicalColumn("count", IntType, None)]

  function OutputSchema(p: Plan): Schema {
    match p
    case Scan(_, _, schema, _) => schema
    case Literal(_, schema) => schema
    case Filter(child, _) => OutputSchema(child)
    case Join(l, r, _, _) => OutputSchema(l) + OutputSchema(r)
    case Projection(_, _, schema) => schema
    case UnaryNode(u, child) =>
      match u
      case Sort(_, _) => OutputSchema(child)
      case Limit(_, _) => OutputSchema(child)
      case Aggregation(_, _, schema) => schema
      case Subquery(_, schema) => schema
      case _ => COUNT_SCHEMA
  }

  /** Table contents, the LIKE matcher, and an arbitrary meaning for the unary nodes. */
  datatype Database = Database(tables: map<nat, seq<Row>>, like: LikeMatch, unary: (Unary, seq<Row>) -> seq<Row>)

  function Select(rows: seq<Row>, preds: seq<Expr>, schema: Schema, like: LikeMatch): seq<Row> {
    if rows == [] then []
    else (if AllTrue(preds, schema, rows[0], like) then [rows[0]] else []) + Select(rows[1..], preds, schema, like)
  }

  /** The padding of an outer join. */
  function NullRow(schema: Schema): (row: Row)
    ensures RowFits(row, schema) && forall i :: 0 <= i < |row| ==> IsNull(row[i])
  {
    seq(|schema|, i requires 0 <= i < |schema| => NullOf(schema[i].ctype))
  }

  /** The left row `l` joined with each right row that meets the ON conditions. */
  function MatchesOfLeft(l: Row, rs: seq<Row>, on: seq<Expr>, schema: Schema, like: LikeMatch): seq<Row> {
    if rs == [] then []
    else
      (if AllTrue(on, schema, l + rs[0], like) then [l + rs[0]] else []) + MatchesOfLeft(l, rs[1..], on, schema, like)
  }

  function MatchesOfRight(ls: seq<Row>, r: Row, on: seq<Expr>, schema: Schema, like: LikeMatch): seq<Row> {
    if ls == [] then []
    else
      (if AllTrue(on, schema, ls[0] + r, like) then [ls[0] + r] else []) + MatchesOfRight(ls[1..], r, on, schema, like)
  }

  function InnerRows(ls: seq<Row>, rs: seq<Row>, on: seq<Expr>, schema: Schema, like: LikeMatch): seq<Row> {
    if ls == [] then [] else MatchesOfLeft(ls[0], rs, on, schema, like) + InnerRows(ls[1..], rs, on, schema, like)
  }

  function OrElse(rows: seq<Row>, fallback: Row): seq<Row> {
    if rows == [] then [fallback] else rows
  }

  function LeftRows(ls: seq<Row>, rs: seq<Row>, on: seq<Expr>, schema: Schema, blank: Row, like: LikeMatch): seq<Row> {
    if ls == [] then []
    else
      OrElse(MatchesOfLeft(ls[0], rs, on, schema, like), ls[0] + blank) + LeftRows(ls[1..], rs, on, schema, blank, like)
  }

  function RightRows(ls: seq<Row>, rs: seq<Row>, on: seq<Expr>, schema: Schema, blank: Row, like: LikeMatch): seq<Row> {
    if rs == [] then []
    else
      OrElse(MatchesOfRight(ls, rs[0], on, schema, like), blank + rs[0])
      + RightRows(ls, rs[1..], on, schema, blank, like)
  }

  /** The right rows that match no left row, padded on the left. */
  function UnmatchedRight(ls: seq<Row>, rs: seq<Row>, on: seq<Expr>, schema: Schema, blank: Row,
                          like: LikeMatch): seq<Row> {
    if rs == [] then []
    else
      var first := if MatchesOfRight(ls, rs[0], on, schema, like) == [] then [blank + rs[0]] else [];
      first + UnmatchedRight(ls, rs[1..], on, schema, blank, like)
  }

  function JoinRows(t: JoinType, ls: seq<Row>, rs: seq<Row>, on: seq<Expr>, sl: Schema, sr: Schema,
                    like: LikeMatch): seq<Row> {
    match t
    case Inner => InnerRows(ls, rs, on, sl + sr, like)
    case Cross => InnerRows(ls, rs, on, sl + sr, like)
    case Left => LeftRows(ls, rs, on, sl + sr, NullRow(sr), like)
    case Right => RightRows(ls, rs, on, sl + sr, NullRow(sl), like)
    case FullOuter =>
      LeftRows(ls, rs, on, sl + sr, NullRow(sr), like) + UnmatchedRight(ls, rs, on, sl + sr, NullRow(sl), like)
  }

  function EvalAll(exprs: seq<Expr>, schema: Schema, row: Row, like: LikeMatch): Row {
    seq(|exprs|, i requires 0 <= i < |exprs| => Eval(exprs[i], schema, row, like))
  }

  function ProjectRows(rows: seq<Row>, exprs: seq<Expr>, schema: Schema, like: LikeMatch): seq<Row> {
    seq(|rows|, i requires 0 <= i < |rows| => EvalAll(exprs, schema, rows[i], like))
  }

  /** The rows a plan yields on a database. */
  function Rows(p: Plan, db: Database): seq<Row> {
    match p
    case Scan(oid, _, schema, preds) => if oid in db.tables then Select(db.tables[oid], preds, schema, db.like) else []
    case Literal(rows, _) => seq(|rows|, i requires 0 <= i < |rows| => EvalAll(rows[i], [], [], db.like))
    case Filter(child, pred) => Select(Rows(child, db), [pred], OutputSchema(child), db.like)
    case Join(l, r, on, t) => JoinRows(t, Rows(l, db), Rows(r, db), on, OutputSchema(l), OutputSchema(r), db.like)
    case Projection(child, exprs, _) => ProjectRows(Rows(child, db), exprs, OutputSchema(child), db.like)
    case UnaryNode(u, child) => db.unary(u, Rows(child, db))
  }

  predicate AllOfWidth(rows: seq<Row>, n: nat) {
    forall i :: 0 <= i < |rows| ==> |rows[i]| == n
  }

  /** Tables, literals and unary nodes deliver rows as wide as their schema. */
  predicate Shaped(p: Plan, db: Database) {
    match p
    case Scan(oid, _, schema, _) => oid in db.tables ==> AllOfWidth(db.tables[oid], |schema|)
    case Literal(_, schema) => AllOfWidth(Rows(p, db), |schema|)
    case Filter(child, _) => Shaped(child, db)
    case Join(l, r, _, _) => Shaped(l, db) && Shaped(r, db)
    case Projection(child, exprs, schema) => |exprs| == |schema| && Shaped(child, db)
    case UnaryNode(_, child) => AllOfWidth(Rows(p, db), |OutputSchema(p)|) && Shaped(child, db)
  }

  // What the joins yield.

  lemma {:induction false} SelectMembers(rows: seq<Row>, preds: seq<Expr>, schema: Schema, like: LikeMatch, row: Row)
    ensures row in Select(rows, preds, schema, like) <==> row in rows && AllTrue(preds, schema, row, like)
  {
    if rows != [] {
      SelectMembers(rows[1..], preds, schema, like, row);
      assert rows == [rows[0]] + rows[1..];
    }
  }

  ghost predicate Joins(l: Row, r: Row, on: seq<Expr>, schema: Schema, row: Row, like: LikeMatch) {
    row == l + r && AllTrue(on, schema, row, like)
  }

  lemma {:induction false} MatchMembers(l: Row, rs: seq<Row>, on: seq<Expr>, schema: Schema, like: LikeMatch, row: Row)
    ensures row in MatchesOfLeft(l, rs, on, schema, like) <==>
      exists r :: r in rs && Joins(l, r, on, schema, row, like)
  {
    if rs != [] {
      MatchMembers(l, rs[1..], on, schema, like, row);
      assert rs == [rs[0]] + rs[1..];
      if Joins(l, rs[0], on, schema, row, like) {
        assert rs[0] in rs;
      }
    }
  }

  /** An inner join yields exactly the pairs that meet its conditions. */
  lemma {:induction false} InnerMembers(ls: seq<Row>, rs: seq<Row>, on: seq<Expr>, schema: Schema, like: LikeMatch,
                                        row: Row)
    ensures row in InnerRows(ls, rs, on, schema, like) <==>
      exists l, r :: l in ls && r in rs && Joins(l, r, on, schema, row, like)
  {
    if ls != [] {
      MatchMembers(ls[0], rs, on, schema, like, row);
      InnerMembers(ls[1..], rs, on, schema, like, row);
      assert ls == [ls[0]] + ls[1..];
      if l, r :| l in ls && r in rs && Joins(l, r, on, schema, row, like) {
        assert l == ls[0] || l in ls[1..];
      }
    }
  }

  // Outer joins are the inner join plus the padded rows.

  /** The left rows that match no right row, padded on the right. */
  function UnmatchedLeft(ls: seq<Row>, rs: seq<Row>, on: seq<Expr>, schema: Schema, blank: Row,
                         like: LikeMatch): seq<Row> {
    if ls == [] then []
    else
      var first := if MatchesOfLeft(ls[0], rs, on, schema, like) == [] then [ls[0] + blank] else [];
      first + UnmatchedLeft(ls[1..], rs, on, schema, blank, like)
  }

  lemma {:induction false} LeftIsInnerAndUnmatched(ls: seq<Row>, rs: seq<Row>, on: seq<Expr>, schema: Schema,
                                                   blank: Row, like: LikeMatch)
    ensures multiset(LeftRows(ls, rs, on, schema, blank, like)) ==
      multiset(InnerRows(ls, rs, on, schema, like)) + multiset(UnmatchedLeft(ls, rs, on, schema, blank, like))
  {
    if ls != [] {
      LeftIsInnerAndUnmatched(ls[1..], rs, on, schema, blank, like);
    }
  }

  /** The inner join, right row by right row. */
  lemma {:induction false} InnerByRight(ls: seq<Row>, rs: seq<Row>, on: seq<Expr>, schema: Schema, like: LikeMatch)
    requires rs != []
    ensures multiset(InnerRows(ls, rs, on, schema, like)) ==
      multiset(MatchesOfRight(ls, rs[0], on, schema, like)) + multiset(InnerRows(ls, rs[1..], on, schema, like))
  {
    if ls != [] {
      InnerByRight(ls[1..], rs, on, schema, like);
    }
  }

  lemma {:induction false} InnerOfNothing(ls: seq<Row>, on: seq<Expr>, schema: Schema, like: LikeMatch)
    ensures InnerRows(ls, [], on, schema, like) == []
  {
    if ls != [] {
      InnerOfNothing(ls[1..], on, schema, like);
    }
  }

  lemma {:induction false} RightIsInnerAndUnmatched(ls: seq<Row>, rs: seq<Row>, on: seq<Expr>, schema: Schema,
                                                    blank: Row, like: LikeMatch)
    ensures multiset(RightRows(ls, rs, on, schema, blank, like)) ==
      multiset(InnerRows(ls, rs, on, schema, like)) + multiset(UnmatchedRight(ls, rs, on, schema, blank, like))
  {
    if rs == [] {
      InnerOfNothing(ls, on, schema, like);
    } else {
      RightIsInnerAndUnmatched(ls, rs[1..], on, schema, blank, like);
      InnerByRight(ls, rs, on, schema, like);
    }
  }

  lemma NoMatches(l: Row, rs: seq<Row>, on: seq<Expr>, schema: Schema, like: LikeMatch)
    ensures MatchesOfLeft(l, rs, on, schema, like) == [] <==>
      forall r :: r in rs ==> !AllTrue(on, schema, l + r, like)
  {
    var matches := MatchesOfLeft(l, rs, on, schema, like);
    if matches != [] {
      MatchMembers(l, rs, on, schema, like, matches[0]);
    }
    forall r | r in rs && AllTrue(on, schema, l + r, like)
      ensures matches != []
    {
      assert Joins(l, r, on, schema, l + r, like);
      MatchMembers(l, rs, on, schema, like, l + r);
    }
  }

  /** The padded rows are those of the left rows that no right row joins. */
  lemma {:induction false} UnmatchedMembers(ls: seq<Row>, rs: seq<Row>, on: seq<Expr>, schema: Schema, blank: Row,
                                            like: LikeMatch, row: Row)
    ensures row in UnmatchedLeft(ls, rs, on, schema, blank, like) <==>
      exists l :: l in ls && row == l + blank && forall r :: r in rs ==> !AllTrue(on, schema, l + r, like)
  {
    if ls != [] {
      NoMatches(ls[0], rs, on, schema, like);
      UnmatchedMembers(ls[1..], rs, on, schema, blank, like, row);
      assert ls == [ls[0]] + ls[1..];
      if l :| l in ls && row == l + blank && forall r :: r in rs ==> !AllTrue(on, schema, l + r, like) {
        assert l == ls[0] || l in ls[1..];
      }
    }
  }

  /** A full outer join is the inner join plus the padded rows of both sides. */
  lemma FullIsInnerAndUnmatched(ls: seq<Row>, rs: seq<Row>, on: seq<Expr>, sl: Schema, sr: Schema, like: LikeMatch)
    ensures multiset(JoinRows(FullOuter, ls, rs, on, sl, sr, like)) ==
      multiset(InnerRows(ls, rs, on, sl + sr, like))
      + multiset(UnmatchedLeft(ls, rs, on, sl + sr, NullRow(sr), like))
      + multiset(UnmatchedRight(ls, rs, on, sl + sr, NullRow(sl), like))
  {
    LeftIsInnerAndUnmatched(ls, rs, on, sl + sr, NullRow(sr), like);
  }

  // Widths.

  lemma {:induction false} SelectWidth(rows: seq<Row>, preds: seq<Expr>, schema: Schema, like: LikeMatch, n: nat)
    requires AllOfWidth(rows, n)
    ensures AllOfWidth(Select(rows, preds, schema, like), n)
  {
    if rows != [] {
      assert AllOfWidth(rows[1..], n);
      SelectWidth(rows[1..], preds, schema, like, n);
    }
  }

  lemma {:induction false} MatchesWidth(l: Row, r: Row, ls: seq<Row>, rs: seq<Row>, on: seq<Expr>, schema: Schema,
                                        like: LikeMatch, m: nat, n: nat)
    requires |l| == m && |r| == n && AllOfWidth(ls, m) && AllOfWidth(rs, n)
    ensures AllOfWidth(MatchesOfLeft(l, rs, on, schema, like), m + n)
    ensures AllOfWidth(MatchesOfRight(ls, r, on, schema, like), m + n)
    decreases |ls| + |rs|
  {
    if rs != [] {
      assert AllOfWidth(rs[1..], n);
      MatchesWidth(l, r, ls, rs[1..], on, schema, like, m, n);
    }
    if ls != [] {
      assert AllOfWidth(ls[1..], m);
      MatchesWidth(l, r, ls[1..], rs, on, schema, like, m, n);
    }
  }

  lemma {:induction false} LeftWidth(ls: seq<Row>, rs: seq<Row>, on: seq<Expr>, schema: Schema, blank: Row,
                                     like: LikeMatch, m: nat, n: nat)
    requires AllOfWidth(ls, m) && AllOfWidth(rs, n) && |blank| == n
    ensures AllOfWidth(InnerRows(ls, rs, on, schema, like), m + n)
    ensures AllOfWidth(LeftRows(ls, rs, on, schema, blank, like), m + n)
  {
    if ls != [] {
      assert AllOfWidth(ls[1..], m);
      LeftWidth(ls[1..], rs, on, schema, blank, like, m, n);
      MatchesWidth(ls[0], blank, ls, rs, on, schema, like, m, n);
    }
  }

  lemma {:induction false} RightWidth(ls: seq<Row>, rs: seq<Row>, on: seq<Expr>, schema: Schema, blank: Row,
                                      like: LikeMatch, m: nat, n: nat)
    requires AllOfWidth(ls, m) && AllOfWidth(rs, n) && |blank| == m
    ensures AllOfWidth(RightRows(ls, rs, on, schema, blank, like), m + n)
    ensures AllOfWidth(UnmatchedRight(ls, rs, on, schema, blank, like), m + n)
  {
    if rs != [] {
      assert AllOfWidth(rs[1..], n);
      RightWidth(ls, rs[1..], on, schema, blank, like, m, n);
      MatchesWidth(blank, rs[0], ls, rs, on, schema, like, m, n);
    }
  }

  lemma {:induction false} RowsWidth(p: Plan, db: Database)
    requires Shaped(p, db)
    ensures AllOfWidth(Rows(p, db), |OutputSchema(p)|)
  {
    match p
    case Scan(oid, _, schema, preds) =>
      if oid in db.tables {
        SelectWidth(db.tables[oid], preds, schema, db.like, |schema|);
      }
    case Filter(child, pred) =>
      RowsWidth(child, db);
      SelectWidth(Rows(child, db), [pred], OutputSchema(child), db.like, |OutputSchema(child)|);
    case Join(l, r, on, _) =>
      RowsWidth(l, db);
      RowsWidth(r, db);
      var sl, sr := OutputSchema(l), OutputSchema(r);
      LeftWidth(Rows(l, db), Rows(r, db), on, sl + sr, NullRow(sr), db.like, |sl|, |sr|);
      RightWidth(Rows(l, db), Rows(r, db), on, sl + sr, NullRow(sl), db.like, |sl|, |sr|);
    case _ =>
  }
}
