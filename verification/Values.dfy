/** The data items of `common/types.go`: 64-bit integers and byte strings, each with a
    typed NULL. */
module Values {
  import opened PageBytes

  type Int64 = x: int | -0x8000_0000_0000_0000 <= x < 0x8000_0000_0000_0000

  type ByteString = Bytes

  datatype Type = IntType | StringType

  datatype Value = Int(i: Int64) | Str(s: ByteString) | NullInt | NullString

  function TypeOf(v: Value): Type {
    if v.Int? || v.NullInt? then IntType else StringType
  }

  predicate IsNull(v: Value) {
    v.NullInt? || v.NullString?
  }

  function NullOf(t: Type): Value {
    match t
    case IntType => NullInt
    case StringType => NullString
  }

  /** Bytewise order, a proper prefix first. */
  function CompareBytes(a: ByteString, b: ByteString): int {
    if a == [] then (if b == [] then 0 else -1)
    else if b == [] then 1
    else if a[0] < b[0] then -1
    else if a[0] > b[0] then 1
    else CompareBytes(a[1..], b[1..])
  }

  /** NULL sorts before every value of its type. */
  function Compare(v: Value, w: Value): int
    requires TypeOf(v) == TypeOf(w)
  {
    if IsNull(v) && IsNull(w) then 0
    else if IsNull(v) then -1
    else if IsNull(w) then 1
    else if v.Int? then (if v.i < w.i then -1 else if v.i > w.i then 1 else 0)
    else CompareBytes(v.s, w.s)
  }

  lemma {:induction false} CompareBytesZero(a: ByteString, b: ByteString)
    ensures CompareBytes(a, b) == 0 <==> a == b
  {
    if a != [] && b != [] && a[0] == b[0] {
      CompareBytesZero(a[1..], b[1..]);
      assert a == [a[0]] + a[1..] && b == [b[0]] + b[1..];
    }
  }

  /** `Compare` is zero exactly on equal values. */
  lemma CompareZero(v: Value, w: Value)
    requires TypeOf(v) == TypeOf(w)
    ensures Compare(v, w) == 0 <==> v == w
  {
    if v.Str? && w.Str? {
      CompareBytesZero(v.s, w.s);
    }
  }

  // The order.

  lemma {:induction false} CompareBytesFlips(a: ByteString, b: ByteString)
    ensures CompareBytes(b, a) == -CompareBytes(a, b)
  {
    if a != [] && b != [] && a[0] == b[0] {
      CompareBytesFlips(a[1..], b[1..]);
    }
  }

  lemma {:induction false} CompareBytesTransitive(a: ByteString, b: ByteString, c: ByteString)
    requires CompareBytes(a, b) <= 0 && CompareBytes(b, c) <= 0
    ensures CompareBytes(a, c) <= 0
  {
    if a != [] && b != [] && c != [] && a[0] == b[0] && b[0] == c[0] {
      CompareBytesTransitive(a[1..], b[1..], c[1..]);
    }
  }

  /** The first difference decides; without one the shorter string comes first. */
  lemma {:induction false} CompareBytesDecides(a: ByteString, b: ByteString, n: nat)
    requires n <= |a| && n <= |b| && a[..n] == b[..n]
    ensures n == |a| < |b| ==> CompareBytes(a, b) == -1
    ensures n < |a| && n < |b| && a[n] < b[n] ==> CompareBytes(a, b) == -1
  {
    if n > 0 {
      assert a[0] == a[..n][0] && b[0] == b[..n][0];
      assert a[1..][..n - 1] == a[..n][1..] && b[1..][..n - 1] == b[..n][1..];
      CompareBytesDecides(a[1..], b[1..], n - 1);
    }
  }

  /** `a` comes before `b`: after `n` equal bytes it ends first or has the smaller byte. */
  predicate BeforeAt(a: ByteString, b: ByteString, n: nat) {
    && n <= |a| && n <= |b| && (forall k :: 0 <= k < n ==> a[k] == b[k])
    && (n == |a| < |b| || (n < |a| && n < |b| && a[n] < b[n]))
  }

  ghost predicate BytesBefore(a: ByteString, b: ByteString) {
    exists n: nat :: BeforeAt(a, b, n)
  }

  /** The order of values, said without comparing: integers by size, strings by their first
      difference, NULL before everything else. */
  ghost predicate Before(v: Value, w: Value) {
    || (IsNull(v) && !IsNull(w))
    || (v.Int? && w.Int? && v.i < w.i)
    || (v.Str? && w.Str? && BytesBefore(v.s, w.s))
  }

  lemma {:induction false} CompareBytesResult(a: ByteString, b: ByteString)
    ensures -1 <= CompareBytes(a, b) <= 1
    ensures CompareBytes(a, b) < 0 ==> BytesBefore(a, b)
  {
    if a == [] || b == [] || a[0] != b[0] {
      assert CompareBytes(a, b) < 0 ==> BeforeAt(a, b, 0);
    } else {
      CompareBytesResult(a[1..], b[1..]);
      if CompareBytes(a, b) < 0 {
        var n: nat :| BeforeAt(a[1..], b[1..], n);
        assert forall k :: 1 <= k <= n ==> a[k] == a[1..][k - 1] && b[k] == b[1..][k - 1];
        assert BeforeAt(a, b, n + 1);
      }
    }
  }

  /** `Compare` is -1 exactly when the first value comes before the second, 1 exactly when it
      comes after, and otherwise 0. */
  lemma CompareIsOrder(v: Value, w: Value)
    requires TypeOf(v) == TypeOf(w)
    ensures Compare(v, w) == -1 <==> Before(v, w)
    ensures Compare(v, w) == 1 <==> Before(w, v)
    ensures -1 <= Compare(v, w) <= 1
  {
    if v.Str? && w.Str? {
      StringsInOrder(v.s, w.s);
      StringsInOrder(w.s, v.s);
      CompareBytesFlips(v.s, w.s);
    }
  }

  lemma StringsInOrder(a: ByteString, b: ByteString)
    ensures CompareBytes(a, b) == -1 <==> BytesBefore(a, b)
    ensures -1 <= CompareBytes(a, b) <= 1
  {
    CompareBytesResult(a, b);
    if n: nat :| BeforeAt(a, b, n) {
      CompareBytesDecides(a, b, n);
    }
  }

  /** `Compare` orders the values of a type totally, NULL first. */
  lemma CompareIsTotalOrder(u: Value, v: Value, w: Value)
    requires TypeOf(u) == TypeOf(v) == TypeOf(w)
    ensures Compare(v, u) == -Compare(u, v)
    ensures Compare(u, v) <= 0 && Compare(v, w) <= 0 ==> Compare(u, w) <= 0
    ensures IsNull(u) ==> Compare(u, v) <= 0
  {
    if u.Str? && v.Str? {
      CompareBytesFlips(u.s, v.s);
      if w.Str? && Compare(u, v) <= 0 && Compare(v, w) <= 0 {
        CompareBytesTransitive(u.s, v.s, w.s);
      }
    }
  }

  // Arithmetic.

  /** Two's-complement wrap-around of a 64-bit result. */
  function Wrap(x: int): Int64 {
    (x + 0x8000_0000_0000_0000) % 0x1_0000_0000_0000_0000 - 0x8000_0000_0000_0000
  }

  function Abs(x: int): nat {
    if x < 0 then -x else x
  }

  /** Division that truncates towards zero. */
  function Quotient(a: int, b: int): int
    requires b != 0
  {
    var q := Abs(a) / Abs(b);
    if (a < 0) == (b < 0) then q else -q
  }

  /** The wrapped result is the one 64-bit integer congruent to the exact one. */
  lemma WrapIsCongruent(x: int, i: Int64)
    ensures Wrap(x) == i <==> (x - i) % 0x1_0000_0000_0000_0000 == 0
  {
    var m := 0x1_0000_0000_0000_0000;
    var y := x + 0x8000_0000_0000_0000;
    assert x - i == y - (i + 0x8000_0000_0000_0000);
    assert y == m * (y / m) + y % m;
  }

  lemma Signs(x: int, y: int)
    ensures (-x) * y == -(x * y) && x * (-y) == -(x * y)
  {
  }

  lemma QuotientTimes(a: int, b: int)
    requires b != 0
    ensures var p := Abs(b) * (Abs(a) / Abs(b)); b * Quotient(a, b) == if a < 0 then -p else p
  {
    var n, q := Abs(b), Abs(a) / Abs(b);
    Signs(n, q);
    Signs(n, -q);
  }

  lemma Division(m: nat, n: nat)
    requires n > 0
    ensures 0 <= m - n * (m / n) < n
  {
  }

  /** Division truncates and the remainder has the sign of the dividend. */
  lemma QuotientTruncates(a: int, b: int)
    requires b != 0
    ensures var r := a - b * Quotient(a, b); Abs(r) < Abs(b) && (a >= 0 ==> r >= 0) && (a <= 0 ==> r <= 0)
  {
    QuotientTimes(a, b);
    Division(Abs(a), Abs(b));
  }
}
