/** `execution/block_nested_loop_join_executor.go`: block by block, yet the same bag of
    rows as the plain nested loop. Rows are lists of values; joining two is concatenation
    (see `Tuples.MergeTuples`). */
module BlockJoin {
  import opened Values
  import opened Serialization
  import opened Expressions
  import LogicalPlans
  import Tuples

  /** Whether the join condition is true on a joined row. */
  type Condition = Row -> bool

  // The plain nested loop.

  function PairsOfLeft(l: Row, rs: seq<Row>, on: Condition): seq<Row> {
    if rs == [] then [] else (if on(l + rs[0]) then [l + rs[0]] else []) + PairsOfLeft(l, rs[1..], on)
  }

  function NestedLoop(ls: seq<Row>, rs: seq<Row>, on: Condition): seq<Row> {
    if ls == [] then [] else PairsOfLeft(ls[0], rs, on) + NestedLoop(ls[1..], rs, on)
  }

  // The blocks.

  function PairsOfRight(ls: seq<Row>, r: Row, on: Condition): seq<Row> {
    if ls == [] then [] else (if on(ls[0] + r) then [ls[0] + r] else []) + PairsOfRight(ls[1..], r, on)
  }

  const BLOCK_SIZE: nat := 0x8000

  /** `tuplesize` */
  function RowSize(row: Row): nat {
    if row == [] then 0 else SizeOf(TypeOf(row[0])) + RowSize(row[1..])
  }

  /** Where the block that starts at `p` ends. */
  function BlockEnd(rows: seq<Row>, p: nat, used: nat): (end: nat)
    requires p <= |rows|
    ensures p <= end <= |rows|
    ensures used < BLOCK_SIZE && p < |rows| ==> p < end
    decreases |rows| - p
  {
    if used < BLOCK_SIZE && p < |rows| then BlockEnd(rows, p + 1, used + RowSize(rows[p])) else p
  }

  function TotalSize(rows: seq<Row>): nat {
    if rows == [] then 0 else RowSize(rows[0]) + TotalSize(rows[1..])
  }

  /** A block is filled up to the budget and not beyond: all its rows but the last stay below
      it, and the block stops short of the rows only when it has reached it. */
  lemma {:induction false} BlockFillsBudget(rows: seq<Row>, p: nat, used: nat)
    requires p <= |rows|
    ensures var end := BlockEnd(rows, p, used);
      && (p < end ==> used + TotalSize(rows[p..end - 1]) < 0x8000)
      && (end < |rows| ==> used + TotalSize(rows[p..end]) >= 0x8000)
    decreases |rows| - p
  {
    if used < BLOCK_SIZE && p < |rows| {
      BlockFillsBudget(rows, p + 1, used + RowSize(rows[p]));
      var end := BlockEnd(rows, p, used);
      assert rows[p..end][1..] == rows[p + 1..end];
      if p + 1 < end {
        assert rows[p..end - 1][1..] == rows[p + 1..end - 1];
      }
    }
  }

  lemma BlockInBudget(rows: seq<Row>, p: nat, end: nat, block: seq<Row>)
    requires p <= |rows| && end == BlockEnd(rows, p, 0) && block == rows[p..end]
    ensures block != [] ==> TotalSize(block[..|block| - 1]) < 0x8000
    ensures end < |rows| ==> TotalSize(block) >= 0x8000
  {
    BlockFillsBudget(rows, p, 0);
    if p < end {
      assert block[..|block| - 1] == rows[p..end - 1];
    }
  }

  /** The size of a row is that of its stored form. */
  lemma {:induction false} RowSizeIsStored(row: Row)
    ensures RowSize(row) == Tuples.TupleSize(Tuples.Tuple([], [], row).Types())
  {
    if row != [] {
      RowSizeIsStored(row[1..]);
      var first, rest := Tuples.Tuple([], [], [row[0]]).Types(), Tuples.Tuple([], [], row[1..]).Types();
      assert Tuples.Tuple([], [], row).Types() == first + rest;
      Tuples.OffsetOfSuffix(first, rest, |rest|);
      assert Tuples.Offset(first, 1) == SizeOf(first[0]);
    }
  }

  /** All matches of a block, right row by right row. */
  function RightMajor(block: seq<Row>, rs: seq<Row>, on: Condition): seq<Row> {
    if rs == [] then [] else PairsOfRight(block, rs[0], on) + RightMajor(block, rs[1..], on)
  }

  /** The output for the left rows from `p` on. */
  function FromLeft(ls: seq<Row>, p: nat, rs: seq<Row>, on: Condition): seq<Row>
    requires p <= |ls|
    decreases |ls| - p
  {
    if p == |ls| then []
    else
      var end := BlockEnd(ls, p, 0);
      RightMajor(ls[p..end], rs, on) + FromLeft(ls, end, rs, on)
  }

  /** Everything the join yields. A right child that fails stops it after the first block. */
  function Output(ls: seq<Row>, rs: seq<Row>, rightFails: bool, on: Condition): seq<Row> {
    if ls == [] then []
    else if rightFails then RightMajor(ls[..BlockEnd(ls, 0, 0)], rs, on)
    else FromLeft(ls, 0, rs, on)
  }

  // The same bag as the nested loop.

  lemma {:induction false} LoopByRight(ls: seq<Row>, rs: seq<Row>, on: Condition)
    requires rs != []
    ensures multiset(NestedLoop(ls, rs, on)) ==
      multiset(PairsOfRight(ls, rs[0], on)) + multiset(NestedLoop(ls, rs[1..], on))
  {
    if ls != [] {
      LoopByRight(ls[1..], rs, on);
    }
  }

  lemma {:induction false} LoopNoRight(ls: seq<Row>, on: Condition)
    ensures NestedLoop(ls, [], on) == []
  {
    if ls != [] {
      LoopNoRight(ls[1..], on);
    }
  }

  lemma {:induction false} RightMajorBag(block: seq<Row>, rs: seq<Row>, on: Condition)
    ensures multiset(RightMajor(block, rs, on)) == multiset(NestedLoop(block, rs, on))
  {
    if rs == [] {
      LoopNoRight(block, on);
    } else {
      RightMajorBag(block, rs[1..], on);
      LoopByRight(block, rs, on);
    }
  }

  lemma {:induction false} LoopConcat(a: seq<Row>, b: seq<Row>, rs: seq<Row>, on: Condition)
    ensures NestedLoop(a + b, rs, on) == NestedLoop(a, rs, on) + NestedLoop(b, rs, on)
  {
    if a == [] {
      assert a + b == b;
    } else {
      LoopConcat(a[1..], b, rs, on);
      assert (a + b)[0] == a[0] && (a + b)[1..] == a[1..] + b;
      Associate(PairsOfLeft(a[0], rs, on), NestedLoop(a[1..], rs, on), NestedLoop(b, rs, on));
    }
  }

  lemma BagOfConcat(x: seq<Row>, a: seq<Row>, b: seq<Row>, y: seq<Row>, c: seq<Row>, d: seq<Row>)
    requires x == a + b && y == c + d && multiset(a) == multiset(c) && multiset(b) == multiset(d)
    ensures multiset(x) == multiset(y)
  {
  }

  lemma FirstBlock(ls: seq<Row>, p: nat, end: nat, rs: seq<Row>, on: Condition)
    requires p < |ls| && end == BlockEnd(ls, p, 0)
    ensures FromLeft(ls, p, rs, on) == RightMajor(ls[p..end], rs, on) + FromLeft(ls, end, rs, on)
  {
  }

  lemma LoopSplit(ls: seq<Row>, p: nat, end: nat, rs: seq<Row>, on: Condition)
    requires p <= end <= |ls|
    ensures NestedLoop(ls[p..], rs, on) == NestedLoop(ls[p..end], rs, on) + NestedLoop(ls[end..], rs, on)
  {
    var a, b := ls[p..end], ls[end..];
    assert ls[p..] == a + b;
    LoopConcat(a, b, rs, on);
  }

  /** For any split into blocks the join yields the bag of the plain nested loop. */
  lemma {:induction false} BlocksAreNestedLoop(ls: seq<Row>, p: nat, rs: seq<Row>, on: Condition)
    requires p <= |ls|
    ensures multiset(FromLeft(ls, p, rs, on)) == multiset(NestedLoop(ls[p..], rs, on))
    decreases |ls| - p
  {
    if p < |ls| {
      var end := BlockEnd(ls, p, 0);
      BlocksAreNestedLoop(ls, end, rs, on);
      FirstBlock(ls, p, end, rs, on);
      LoopSplit(ls, p, end, rs, on);
      RightMajorBag(ls[p..end], rs, on);
      BagOfConcat(FromLeft(ls, p, rs, on), RightMajor(ls[p..end], rs, on), FromLeft(ls, end, rs, on),
                  NestedLoop(ls[p..], rs, on), NestedLoop(ls[p..end], rs, on), NestedLoop(ls[end..], rs, on));
    }
  }

  /** The join of children that do not fail. */
  lemma OutputIsNestedLoop(ls: seq<Row>, rs: seq<Row>, on: Condition)
    ensures multiset(Output(ls, rs, false, on)) == multiset(NestedLoop(ls, rs, on))
  {
    BlocksAreNestedLoop(ls, 0, rs, on);
    assert ls[0..] == ls;
  }

  lemma {:induction false} PairsAreMatches(l: Row, rs: seq<Row>, on: seq<Expr>, schema: Schema, like: LikeMatch)
    ensures PairsOfLeft(l, rs, row => AllTrue(on, schema, row, like)) ==
      LogicalPlans.MatchesOfLeft(l, rs, on, schema, like)
  {
    if rs != [] {
      PairsAreMatches(l, rs[1..], on, schema, like);
    }
  }

  /** The nested loop is the inner join of the logical plans. */
  lemma {:induction false} LoopIsInnerJoin(ls: seq<Row>, rs: seq<Row>, on: seq<Expr>, schema: Schema, like: LikeMatch)
    ensures NestedLoop(ls, rs, row => AllTrue(on, schema, row, like)) ==
      LogicalPlans.InnerRows(ls, rs, on, schema, like)
  {
    if ls != [] {
      PairsAreMatches(ls[0], rs, on, schema, like);
      LoopIsInnerJoin(ls[1..], rs, on, schema, like);
    }
  }

  // The state of a run.

  /** The rows the children yield, whether each then reports an error instead of the end
      of its rows, and the join condition. */
  datatype Query = Query(left: seq<Row>, leftFails: bool, right: seq<Row>, rightFails: bool, on: Condition)

  /** How many rows the children have yielded since their last `Init`, the block in memory,
      and the position in it. */
  datatype Cursor = Cursor(leftPos: nat, rightPos: nat, block: seq<Row>, idx: nat, rightHasCur: bool)

  predicate CursorOk(c: Cursor, q: Query) {
    && c.leftPos <= |q.left| && c.rightPos <= |q.right| && c.idx <= |c.block|
    && (c.rightHasCur ==> c.rightPos > 0)
  }

  /** What is still to come for the current right row. */
  function Head(c: Cursor, q: Query): seq<Row>
    requires CursorOk(c, q)
  {
    if c.rightHasCur then PairsOfRight(c.block[c.idx..], q.right[c.rightPos - 1], q.on) else []
  }

  /** What the later right rows and the later blocks will give. */
  function Tail(c: Cursor, q: Query): seq<Row>
    requires CursorOk(c, q)
  {
    RightMajor(c.block, q.right[c.rightPos..], q.on)
    + if q.rightFails then [] else FromLeft(q.left, c.leftPos, q.right, q.on)
  }

  /** The rows still to come. */
  function Remaining(c: Cursor, q: Query): seq<Row>
    requires CursorOk(c, q)
  {
    if c.block == [] then [] else Head(c, q) + Tail(c, q)
  }

  lemma StartsOver(q: Query)
    ensures var end := BlockEnd(q.left, 0, 0);
      Remaining(Cursor(end, 0, q.left[0..end], 0, false), q) == Output(q.left, q.right, q.rightFails, q.on)
  {
    var end := BlockEnd(q.left, 0, 0);
    assert q.right[0..] == q.right;
    assert q.left[0..end] == q.left[..end];
  }

  lemma MatchFound(c: Cursor, q: Query, i: nat)
    requires CursorOk(c, q) && c.rightHasCur && c.idx < i <= |c.block|
    requires var r := q.right[c.rightPos - 1];
      Head(c, q) == [c.block[i - 1] + r] + PairsOfRight(c.block[i..], r, q.on)
    ensures Remaining(c, q) == [c.block[i - 1] + q.right[c.rightPos - 1]] + Remaining(c.(idx := i), q)
  {
    var joined := [c.block[i - 1] + q.right[c.rightPos - 1]];
    assert Tail(c.(idx := i), q) == Tail(c, q);
    Associate(joined, Head(c.(idx := i), q), Tail(c, q));
  }

  lemma NoMatch(c: Cursor, q: Query)
    requires CursorOk(c, q) && c.rightHasCur && Head(c, q) == []
    ensures Remaining(c, q) == Remaining(c.(idx := |c.block|, rightHasCur := false), q)
  {
    var d := c.(idx := |c.block|, rightHasCur := false);
    assert Tail(d, q) == Tail(c, q) && Head(d, q) == [];
  }

  lemma NextRightRow(c: Cursor, q: Query)
    requires CursorOk(c, q) && !c.rightHasCur && c.rightPos < |q.right|
    ensures Remaining(c, q) == Remaining(c.(rightPos := c.rightPos + 1, idx := 0, rightHasCur := true), q)
  {
    var d := c.(rightPos := c.rightPos + 1, idx := 0, rightHasCur := true);
    NextRight(c.block, q.right, c.rightPos, q.on);
    assert c.block[0..] == c.block;
    Associate(Head(d, q), RightMajor(c.block, q.right[d.rightPos..], q.on),
              if q.rightFails then [] else FromLeft(q.left, c.leftPos, q.right, q.on));
  }

  lemma NextBlockLoaded(c: Cursor, q: Query)
    requires CursorOk(c, q) && !c.rightHasCur && c.rightPos == |q.right| && c.block != []
    ensures q.rightFails ==> Remaining(c, q) == []
    ensures !q.rightFails ==> var end := BlockEnd(q.left, c.leftPos, 0);
      Remaining(c, q) == Remaining(Cursor(end, 0, q.left[c.leftPos..end], 0, false), q)
  {
    var end := BlockEnd(q.left, c.leftPos, 0);
    assert q.right[c.rightPos..] == [] && q.right[0..] == q.right;
  }

  lemma NextRight(block: seq<Row>, rs: seq<Row>, p: nat, on: Condition)
    requires p < |rs|
    ensures RightMajor(block, rs[p..], on) == PairsOfRight(block, rs[p], on) + RightMajor(block, rs[p + 1..], on)
  {
    assert rs[p..][1..] == rs[p + 1..];
  }

  lemma NextInBlock(block: seq<Row>, i: nat, r: Row, on: Condition)
    requires i < |block|
    ensures PairsOfRight(block[i..], r, on) ==
      (if on(block[i] + r) then [block[i] + r] else []) + PairsOfRight(block[i + 1..], r, on)
  {
    assert block[i..][1..] == block[i + 1..];
  }

  lemma Associate(a: seq<Row>, b: seq<Row>, c: seq<Row>)
    ensures (a + b) + c == a + (b + c)
  {
  }

  /** A row, if there is one, and what comes after it. */
  function Yielded(more: bool, row: Row, rest: seq<Row>): seq<Row> {
    if more then [row] + rest else rest
  }

  // The executor.

  /** The inner loop: the first left row of the block, from `from` on, that joins with `r`. */
  method FindMatch(block: seq<Row>, from: nat, r: Row, on: Condition) returns (found: bool, i: nat)
    requires from <= |block|
    ensures from <= i <= |block| && (found ==> from < i) && (!found ==> i == |block|)
    ensures PairsOfRight(block[from..], r, on) ==
      if found then [block[i - 1] + r] + PairsOfRight(block[i..], r, on) else []
  {
    i, found := from, false;
    while !found && i < |block|
      invariant from <= i <= |block| && (found ==> from < i)
      invariant PairsOfRight(block[from..], r, on) ==
        (if found then [block[i - 1] + r] else []) + PairsOfRight(block[i..], r, on)
      decreases !found, |block| - i
    {
      NextInBlock(block, i, r, on);
      var joined := block[i] + r;
      i := i + 1;
      if on(joined) {
        found := true;
      }
    }
    if !found {
      assert block[i..] == [];
    }
  }

  method TryRest(c: Cursor, q: Query) returns (found: bool, i: nat, joined: Row)
    requires CursorOk(c, q) && c.rightHasCur
    ensures c.idx <= i <= |c.block|
    ensures Remaining(c, q) == Yielded(found, joined, Remaining(c.(idx := i, rightHasCur := found), q))
  {
    var r := q.right[c.rightPos - 1];
    found, i := FindMatch(c.block, c.idx, r, q.on);
    if found {
      joined := c.block[i - 1] + r;
      MatchFound(c, q, i);
      assert c.(idx := i, rightHasCur := found) == c.(idx := i);
    } else {
      joined := [];
      NoMatch(c, q);
    }
  }

  class BlockNestedLoopJoin {
    const query: Query
    var leftPos: nat
    var rightPos: nat
    var leftBlock: seq<Row>
    var blockIdx: nat
    var rightHasCur: bool
    var current: Row
    var err: bool
    /** What `Error` of the left child gives. */
    var leftErr: bool

    function State(): Cursor
      reads this
    {
      Cursor(leftPos, rightPos, leftBlock, blockIdx, rightHasCur)
    }

    predicate Valid()
      reads this
    {
      CursorOk(State(), query)
    }

    constructor (query: Query)
      ensures this.query == query && !err && !leftErr
    {
      this.query := query;
      leftPos, rightPos, leftBlock, blockIdx, rightHasCur := 0, 0, [], 0, false;
      current, err, leftErr := [], false, false;
    }

    /** `Next` of the left child: false at its end and at its failure. */
    method LeftNext() returns (more: bool)
      requires leftPos <= |query.left| && !leftErr
      modifies this`leftPos, this`leftErr
      ensures more == (old(leftPos) < |query.left|) && leftPos == old(leftPos) + (if more then 1 else 0)
      ensures leftErr == (!more && query.leftFails)
    {
      more := leftPos < |query.left|;
      if more {
        leftPos := leftPos + 1;
      } else {
        leftErr := query.leftFails;
      }
    }

    /** The loop that fills a block. It asks for an error of the left child only after a row,
        when there is none, so it never reports one. */
    method LoadLeftBlock() returns (failed: bool)
      requires leftPos <= |query.left|
      modifies this`leftBlock, this`leftPos, this`leftErr
      ensures leftPos == BlockEnd(query.left, old(leftPos), 0) && leftBlock == query.left[old(leftPos)..leftPos]
      ensures !failed && (leftBlock == [] ==> leftErr == query.leftFails)
      ensures leftBlock != [] ==> TotalSize(leftBlock[..|leftBlock| - 1]) < 0x8000
      ensures leftPos < |query.left| ==> TotalSize(leftBlock) >= 0x8000
    {
      leftBlock, leftErr := [], false;
      var usedSize: nat := 0;
      var more := true;
      failed := false;
      while usedSize < BLOCK_SIZE && more && !failed
        invariant old(leftPos) <= leftPos <= |query.left| && leftBlock == query.left[old(leftPos)..leftPos]
        invariant BlockEnd(query.left, leftPos, usedSize) == BlockEnd(query.left, old(leftPos), 0)
        invariant !failed && if more then !leftErr else leftPos == |query.left| && leftErr == query.leftFails
        invariant leftBlock == [] ==> usedSize == 0
        decreases |query.left| - leftPos, more
      {
        more := LeftNext();
        failed := more && leftErr;
        if more && !failed {
          var row := query.left[leftPos - 1];
          leftBlock := leftBlock + [row];
          usedSize := usedSize + RowSize(row);
        }
      }
      BlockInBudget(query.left, old(leftPos), leftPos, leftBlock);
    }

    /** Starts, or starts over: the whole output is to come again. */
    method Init() returns (failed: bool)
      modifies this`leftBlock, this`blockIdx, this`rightHasCur, this`leftPos, this`rightPos, this`leftErr
      ensures Valid() && Remaining(State(), query) == Output(query.left, query.right, query.rightFails, query.on)
      ensures !failed && (leftBlock == [] <==> query.left == []) && (leftBlock == [] ==> leftErr == query.leftFails)
    {
      leftPos, rightPos, blockIdx, rightHasCur := 0, 0, 0, false;
      failed := LoadLeftBlock();
      StartsOver(query);
    }

    /** Tries the rest of the block against the current right row. */
    method TryBlock() returns (found: bool)
      requires Valid() && rightHasCur && leftBlock != []
      modifies this`blockIdx, this`rightHasCur, this`current
      ensures Valid() && found == rightHasCur
      ensures Remaining(old(State()), query) == Yielded(found, current, Remaining(State(), query))
    {
      var i, joined;
      found, i, joined := TryRest(State(), query);
      if found {
        current := joined;
      } else {
        rightHasCur := false;
      }
      blockIdx := i;
    }

    /** Fetches the next right row, or the next block to start the right side again. An
        error is reported exactly if it is the right child's. */
    method Advance() returns (more: bool)
      requires Valid() && !rightHasCur && leftBlock != []
      modifies this`leftBlock, this`blockIdx, this`rightHasCur, this`err, this`leftPos, this`rightPos, this`leftErr
      ensures Valid() && Remaining(State(), query) == Remaining(old(State()), query)
      ensures !more ==> Remaining(State(), query) == []
      ensures err == (old(err) || (!more && query.rightFails))
      ensures query.rightFails ==> leftBlock == old(leftBlock)
      ensures !more && !query.rightFails ==> leftBlock == [] && leftErr == query.leftFails
      ensures more ==> leftBlock != [] && leftPos >= old(leftPos)
      ensures more ==> leftPos > old(leftPos) || (rightHasCur && rightPos > old(rightPos))
    {
      ghost var c := State();
      if rightPos < |query.right| {
        NextRightRow(c, query);
        rightPos := rightPos + 1;
        rightHasCur, blockIdx := true, 0;
        return true;
      }
      NextBlockLoaded(c, query);
      if query.rightFails {
        err := true;
        return false;
      }
      var failed := LoadLeftBlock();
      err := err || failed;
      blockIdx, rightPos := 0, 0;
      return !failed && leftBlock != [];
    }

    /** One turn of the loop of `Next`. */
    method Turn() returns (done: bool, more: bool)
      requires Valid() && leftBlock != []
      modifies this`leftBlock, this`blockIdx, this`rightHasCur, this`current, this`err, this`leftPos, this`rightPos,
        this`leftErr
      ensures Valid()
      ensures Remaining(old(State()), query) == Yielded(more, current, Remaining(State(), query))
      ensures (more ==> done) && (done && !more ==> Remaining(State(), query) == [])
      ensures err == (old(err) || (done && !more && query.rightFails))
      ensures query.rightFails ==> leftBlock == old(leftBlock)
      ensures done && !more && !query.rightFails ==> leftBlock == [] && leftErr == query.leftFails
      ensures !done || more || query.rightFails ==> leftBlock != []
      ensures !done ==> Closer(old(State()), State())
    {
      more := false;
      if !rightHasCur {
        var go := Advance();
        if !go {
          return true, false;
        }
      }
      if rightHasCur {
        more := TryBlock();
      }
      done := more;
    }

    /** Yields the next row of the output; false at its end, or at an error of the right
        child, which alone is reported. */
    method Next() returns (more: bool)
      requires Valid()
      modifies this`leftBlock, this`blockIdx, this`rightHasCur, this`current, this`err, this`leftPos, this`rightPos,
        this`leftErr
      ensures Valid()
      ensures Remaining(old(State()), query) == Yielded(more, current, Remaining(State(), query))
      ensures !more ==> Remaining(State(), query) == []
      ensures err == (old(err) || (!more && query.rightFails && old(leftBlock) != []))
      ensures query.rightFails ==> leftBlock == old(leftBlock)
      ensures more ==> leftBlock != []
      ensures old(leftBlock) == [] ==> leftErr == old(leftErr)
      ensures !more && !query.rightFails && old(leftBlock) != [] ==> leftErr == query.leftFails
    {
      more := false;
      if leftBlock == [] {
        return false;
      }
      var done := false;
      ghost var before := Remaining(State(), query);
      while !done
        invariant Valid() && (more ==> done) && (done && !more ==> Remaining(State(), query) == [])
        invariant before == Yielded(more, current, Remaining(State(), query))
        invariant err == (old(err) || (done && !more && query.rightFails))
        invariant query.rightFails ==> leftBlock == old(leftBlock)
        invariant if done && !more && !query.rightFails then leftErr == query.leftFails else leftBlock != []
        decreases !done, |query.left| - leftPos, |query.right| - rightPos, rightHasCur
      {
        done, more := Turn();
      }
    }
  }

  /** Fewer left rows to load, or the same and fewer right rows, or a right row is done. */
  predicate Closer(c: Cursor, d: Cursor) {
    || d.leftPos > c.leftPos
    || (d.leftPos == c.leftPos && d.rightPos > c.rightPos)
    || (d.leftPos == c.leftPos && d.rightPos == c.rightPos && c.rightHasCur && !d.rightHasCur)
  }

  /** A whole run: the rows `Next` yields are the output, and the run ends. Afterwards the
      join has an error exactly if the right child failed and was asked at all; a failure
      of the left child has been seen, and is not among the join's errors. */
  method Drain(join: BlockNestedLoopJoin) returns (rows: seq<Row>)
    requires !join.err
    modifies join
    ensures rows == Output(join.query.left, join.query.right, join.query.rightFails, join.query.on)
    ensures join.Valid() && Remaining(join.State(), join.query) == []
    ensures join.err <==> join.query.rightFails && join.query.left != []
    ensures !join.err ==> (join.leftErr <==> join.query.leftFails)
  {
    var failed := join.Init();
    rows := [];
    ghost var all, left := Remaining(join.State(), join.query), Remaining(join.State(), join.query);
    var more := join.Next();
    while more
      invariant join.Valid() && all == rows + left && Ended(join, more)
      invariant left == Yielded(more, join.current, Remaining(join.State(), join.query))
      invariant !more ==> left == []
      decreases |left|
    {
      Associate(rows, [join.current], Remaining(join.State(), join.query));
      rows := rows + [join.current];
      left := Remaining(join.State(), join.query);
      more := join.Next();
    }
  }

  /** The errors as they stand during and after a run. */
  ghost predicate Ended(join: BlockNestedLoopJoin, more: bool)
    reads join
  {
    if more then !join.err && join.leftBlock != [] && join.query.left != []
    else
      && (join.err <==> join.query.rightFails && join.query.left != [])
      && (!join.err ==> (join.leftErr <==> join.query.leftFails))
  }

  /** A left child that fails after any rows: the run is the one of a child that ends there,
      and nothing is reported. */
  method LeftFailureIsDropped(left: seq<Row>, right: seq<Row>, on: Condition)
    returns (join: BlockNestedLoopJoin, rows: seq<Row>)
    ensures fresh(join) && join.query == Query(left, true, right, false, on)
    ensures join.leftErr && !join.err
    ensures multiset(rows) == multiset(NestedLoop(left, right, on))
  {
    join := new BlockNestedLoopJoin(Query(left, true, right, false, on));
    rows := Drain(join);
    OutputIsNestedLoop(left, right, on);
  }
}
