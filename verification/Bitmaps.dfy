/** `storage/bitmap.go`: a bitmap laid over a byte buffer and read and written in 64-bit
    words. The word-wise search for a free bit is the plain cyclic scan over the bits. */
module Bitmaps {
  import opened Bits
  import opened PageBytes

  // Bits of a buffer.

  function WordsFor(n: nat): nat {
    (n + 63) / 64
  }

  function WordOffset(start: nat, i: nat): nat {
    start + 8 * (i / 64)
  }

  /** Go's `i / 64` and `i % 64`, which truncate toward zero. */
  function WordIndex(i: int): int {
    if i < 0 then -(-i / 64) else i / 64
  }

  function BitIndex(i: int): int {
    i - 64 * WordIndex(i)
  }

  lemma IndexOfNat(i: nat)
    ensures WordIndex(i) == i / 64 && BitIndex(i) == i % 64
  {
  }

  predicate BitOf(b: Bytes, start: nat, i: nat)
    requires WordOffset(start, i) + 8 <= |b|
  {
    BitAt(WordAt(b, WordOffset(start, i)), i % 64)
  }

  /** The buffer after bit `i` is set to `on`. */
  function SetBitIn(b: Bytes, start: nat, i: nat, on: bool): (r: Bytes)
    requires WordOffset(start, i) + 8 <= |b|
    ensures |r| == |b|
  {
    var off := WordOffset(start, i);
    PutWord(b, off, WithBit(WordAt(b, off), i % 64, on))
  }

  /** The word a bit of which is written back, in place. */
  lemma WordWritten(b: Bytes, start: nat, i: int, on: bool)
    requires -64 < i && start + 8 * WordIndex(i) + 8 <= |b|
    ensures var off := start + 8 * WordIndex(i);
      PutWord(b, off, if BitIndex(i) >= 0 then WithBit(WordAt(b, off), BitIndex(i), on) else WordAt(b, off)) ==
      if i >= 0 then SetBitIn(b, start, i, on) else b
  {
    if i >= 0 {
      IndexOfNat(i);
    } else {
      assert WordIndex(i) == 0;
      PutSameWord(b, start);
    }
  }

  /** Only bit `i` changes. */
  lemma BitAfterSet(b: Bytes, start: nat, i: nat, on: bool, j: nat)
    requires WordOffset(start, i) + 8 <= |b| && WordOffset(start, j) + 8 <= |b|
    ensures BitOf(SetBitIn(b, start, i, on), start, j) == if j == i then on else BitOf(b, start, j)
  {
    if i / 64 == j / 64 {
      var w := WithBit(WordAt(b, WordOffset(start, i)), i % 64, on);
      WordAfterPut(b, WordOffset(start, i), w, WordOffset(start, i));
      assert BitAt(w, j % 64) == if j % 64 == i % 64 then on else BitAt(WordAt(b, WordOffset(start, i)), j % 64);
    } else {
      BitElsewhere(b, start, i, on, start, j);
    }
  }

  /** A bitmap elsewhere in the buffer keeps its bits. */
  lemma BitElsewhere(b: Bytes, start: nat, i: nat, on: bool, other: nat, j: nat)
    requires WordOffset(start, i) + 8 <= |b| && WordOffset(other, j) + 8 <= |b|
    requires WordOffset(start, i) + 8 <= WordOffset(other, j) || WordOffset(other, j) + 8 <= WordOffset(start, i)
    ensures BitOf(SetBitIn(b, start, i, on), other, j) == BitOf(b, other, j)
  {
    var off := WordOffset(start, i);
    WordAfterPut(b, off, WithBit(WordAt(b, off), i % 64, on), WordOffset(other, j));
  }

  /** Outside the one word all bytes stay. */
  lemma BytesAfterSet(b: Bytes, start: nat, i: nat, on: bool, lo: nat, hi: nat)
    requires WordOffset(start, i) + 8 <= |b| && hi <= |b|
    requires hi <= WordOffset(start, i) || WordOffset(start, i) + 8 <= lo
    ensures SameOn(SetBitIn(b, start, i, on), b, lo, hi)
  {
    var off := WordOffset(start, i);
    SpliceKeeps(b, off, Encode(WithBit(WordAt(b, off), i % 64, on), 8), lo, hi);
  }

  lemma BitInBounds(n: nat, start: nat, i: nat)
    requires i < 64 * WordsFor(n)
    ensures WordOffset(start, i) + 8 <= start + 8 * WordsFor(n)
  {
  }

  lemma IndexInBounds(n: nat, start: nat, i: int)
    requires n > 0 && -64 < i < 64 * WordsFor(n)
    ensures 0 <= WordIndex(i) && start + 8 * WordIndex(i) + 8 <= start + 8 * WordsFor(n)
    ensures -64 < BitIndex(i) < 64 && (BitIndex(i) >= 0 <==> i >= 0)
    ensures i >= 0 ==> WordOffset(start, i) == start + 8 * WordIndex(i) && BitIndex(i) == i % 64
  {
  }

  ghost function BitsOf(b: Bytes, start: nat, n: nat): (bits: seq<bool>)
    requires start + 8 * WordsFor(n) <= |b|
    ensures |bits| == n
  {
    seq(n, i requires 0 <= i < n => BitOf(b, start, i))
  }

  lemma BitsAfterSet(b: Bytes, start: nat, i: nat, on: bool, n: nat)
    requires start + 8 * WordsFor(n) <= |b| && i < n
    ensures BitsOf(SetBitIn(b, start, i, on), start, n) == BitsOf(b, start, n)[i := on]
  {
    BitInBounds(n, start, i);
    var bits, after := BitsOf(b, start, n), BitsOf(SetBitIn(b, start, i, on), start, n);
    forall j | 0 <= j < n
      ensures after[j] == bits[i := on][j]
    {
      BitInBounds(n, start, j);
      BitAfterSet(b, start, i, on, j);
    }
  }

  lemma BitsKept(b: Bytes, r: Bytes, start: nat, n: nat)
    requires SameOn(r, b, start, start + 8 * WordsFor(n))
    ensures BitsOf(r, start, n) == BitsOf(b, start, n)
  {
    forall j | 0 <= j < n
      ensures BitOf(r, start, j) == BitOf(b, start, j)
    {
      var off := WordOffset(start, j);
      SameSlice(r, b, start, start + 8 * WordsFor(n), off, off + 8);
    }
  }

  // The plain cyclic scan.

  function ScanFrom(bits: seq<bool>, at: nat, left: nat): int
    requires left > 0 ==> at < |bits|
    decreases left
  {
    if left == 0 then -1
    else if !bits[at] then at
    else ScanFrom(bits, if at + 1 == |bits| then 0 else at + 1, left - 1)
  }

  /** Look at each of the bits once, starting at the hint and wrapping around. */
  function CyclicScan(bits: seq<bool>, hint: nat): int {
    if |bits| == 0 then -1 else ScanFrom(bits, hint % |bits|, |bits|)
  }

  /** How far `j` lies ahead of `h` on the cycle. */
  function Ahead(n: nat, h: nat, j: nat): int {
    if j >= h then j - h else j - h + n
  }

  ghost predicate IsFirstZero(bits: seq<bool>, h: nat, r: int) {
    if r == -1 then forall j :: 0 <= j < |bits| ==> bits[j]
    else
      && 0 <= r < |bits| && !bits[r]
      && forall j :: 0 <= j < |bits| && Ahead(|bits|, h, j) < Ahead(|bits|, h, r) ==> bits[j]
  }

  lemma {:induction false} ScanFindsFirstZero(bits: seq<bool>, h: nat, at: nat, left: nat)
    requires h < |bits| && left <= |bits|
    requires left > 0 ==> at < |bits| && Ahead(|bits|, h, at) == |bits| - left
    requires forall j :: 0 <= j < |bits| && Ahead(|bits|, h, j) < |bits| - left ==> bits[j]
    ensures IsFirstZero(bits, h, ScanFrom(bits, at, left))
    decreases left
  {
    if left > 0 && bits[at] {
      ScanFindsFirstZero(bits, h, if at + 1 == |bits| then 0 else at + 1, left - 1);
    }
  }

  /** The scan is characterised by what it finds. */
  lemma ScanIsFirstZero(bits: seq<bool>, hint: nat, r: int)
    requires |bits| > 0
    ensures CyclicScan(bits, hint) == r <==> IsFirstZero(bits, hint % |bits|, r)
  {
    var h := hint % |bits|;
    ScanFindsFirstZero(bits, h, h, |bits|);
    var s := ScanFrom(bits, h, |bits|);
    if IsFirstZero(bits, h, r) && r != -1 && s != -1 {
      assert !(Ahead(|bits|, h, r) < Ahead(|bits|, h, s));
      assert !(Ahead(|bits|, h, s) < Ahead(|bits|, h, r));
    }
  }

  /** The scan gives up exactly when every bit is set; otherwise it returns a clear bit. */
  lemma ScanGivesUp(bits: seq<bool>, hint: nat)
    ensures CyclicScan(bits, hint) == -1 <==> forall j :: 0 <= j < |bits| ==> bits[j]
    ensures CyclicScan(bits, hint) != -1 ==> 0 <= CyclicScan(bits, hint) < |bits| && !bits[CyclicScan(bits, hint)]
  {
    if |bits| > 0 {
      ScanIsFirstZero(bits, hint, CyclicScan(bits, hint));
      ScanIsFirstZero(bits, hint, -1);
    }
  }

  // The word-wise search.

  ghost predicate AllSet(bits: seq<bool>, lo: nat, hi: nat) {
    forall j :: lo <= j < hi && j < |bits| ==> bits[j]
  }

  /** What one word tells about its bits from index `k` on. */
  lemma WordOutcome(b: Bytes, start: nat, n: nat, c: nat, k: nat, w: Word)
    requires start + 8 * WordsFor(n) <= |b| && c < WordsFor(n) && k < 64
    requires forall j :: 0 <= j < 64 ==> (BitAt(w, j) <==> j < k || BitAt(WordAt(b, start + 8 * c), j))
    ensures var bits, r := BitsOf(b, start, n), 64 * c + FirstClear(w);
      if w != ALL_ONES && r < n then 64 * c + k <= r < 64 * c + 64 && !bits[r] && AllSet(bits, 64 * c + k, r)
      else AllSet(bits, 64 * c + k, 64 * c + 64)
  {
    var bits, z := BitsOf(b, start, n), FirstClear(w);
    forall x | 64 * c <= x < 64 * c + 64 && x < n
      ensures bits[x] == BitAt(WordAt(b, start + 8 * c), x - 64 * c)
    {
      assert x / 64 == c && x % 64 == x - 64 * c;
    }
    forall j | 64 * c + k <= j < 64 * c + 64 && j < n && (w == ALL_ONES || j < 64 * c + z)
      ensures bits[j]
    {
      var i := j - 64 * c;
      if w == ALL_ONES {
        AllOnes(i);
      }
      assert BitAt(w, i);
    }
    if w != ALL_ONES && 64 * c + z < n {
      assert !BitAt(w, z);
    }
  }

  /** Words after the hint's, counted cyclically; the hint's own word comes last. */
  function WordDistance(s: nat, c: nat, words: nat): int {
    if c > s then c - s else c - s + words
  }

  /** The hint's word from the hint on, and the next words before the `i`-th, are full. */
  ghost predicate Searched(bits: seq<bool>, h: nat, words: nat, i: nat) {
    && AllSet(bits, h, 64 * (h / 64) + 64)
    && forall c :: 0 <= c < words && WordDistance(h / 64, c, words) < i ==> AllSet(bits, 64 * c, 64 * c + 64)
  }

  lemma FoundIsFirst(bits: seq<bool>, h: nat, words: nat, i: nat, c: nat, r: nat)
    requires h < |bits| && words == WordsFor(|bits|) && Searched(bits, h, words, i)
    requires c < words && WordDistance(h / 64, c, words) == i
    requires 64 * c <= r < 64 * c + 64 && r < |bits| && !bits[r] && AllSet(bits, 64 * c, r)
    ensures IsFirstZero(bits, h, r)
  {
    var n, s := |bits|, h / 64;
    forall j | 0 <= j < n && Ahead(n, h, j) < Ahead(n, h, r)
      ensures bits[j]
    {
      var d := j / 64;
      if d == s && j >= h {
      } else if d == c && j < r {
      } else {
        assert WordDistance(s, d, words) < i;
      }
    }
  }

  /** The hint's own word, with the bits before the hint masked out. */
  lemma FirstWordOutcome(b: Bytes, start: nat, n: nat, h: nat, c: nat, k: nat, w: Word)
    requires start + 8 * WordsFor(n) <= |b| && h < n && c == h / 64 && k == h % 64
    requires w == Masked(WordAt(b, start + 8 * c), k)
    ensures w != ALL_ONES && 64 * c + FirstClear(w) < n ==> IsFirstZero(BitsOf(b, start, n), h, 64 * c + FirstClear(w))
    ensures !(w != ALL_ONES && 64 * c + FirstClear(w) < n) ==> Searched(BitsOf(b, start, n), h, WordsFor(n), 1)
  {
    assert 64 * c + k == h;
    WordOutcome(b, start, n, c, k, w);
  }

  lemma NothingFound(bits: seq<bool>, h: nat, words: nat)
    requires h < |bits| && words == WordsFor(|bits|) && Searched(bits, h, words, words + 1)
    ensures IsFirstZero(bits, h, -1)
  {
    forall j | 0 <= j < |bits|
      ensures bits[j]
    {
      assert WordDistance(h / 64, j / 64, words) < words + 1;
      assert AllSet(bits, 64 * (j / 64), 64 * (j / 64) + 64);
    }
  }

  lemma SearchedGrows(bits: seq<bool>, h: nat, words: nat, i: nat, c: nat)
    requires Searched(bits, h, words, i) && h / 64 < words
    requires c < words && WordDistance(h / 64, c, words) == i && AllSet(bits, 64 * c, 64 * c + 64)
    ensures Searched(bits, h, words, i + 1)
  {
    forall d | 0 <= d < words && WordDistance(h / 64, d, words) < i + 1
      ensures AllSet(bits, 64 * d, 64 * d + 64)
    {
      assert d == c || WordDistance(h / 64, d, words) < i;
    }
  }

  lemma Wrapped(x: nat, m: nat)
    requires m <= x < 2 * m
    ensures x % m == x - m
  {
    var q := x / m;
    assert x == q * m + x % m;
    assert q >= 2 ==> q * m >= 2 * m;
    assert q <= 0 ==> q * m <= 0;
    assert q == 1;
  }

  lemma NextWord(s: nat, i: nat, words: nat)
    requires s < words && 1 <= i <= words
    ensures WordDistance(s, (s + i) % words, words) == i
  {
    if s + i >= words {
      Wrapped(s + i, words);
    }
  }

  /** The `i`-th word after the hint's. */
  lemma OtherWordOutcome(b: Bytes, start: nat, n: nat, h: nat, i: nat, c: nat, w: Word)
    requires start + 8 * WordsFor(n) <= |b| && h < n
    requires c < WordsFor(n) && WordDistance(h / 64, c, WordsFor(n)) == i
    requires w == WordAt(b, start + 8 * c)
    requires Searched(BitsOf(b, start, n), h, WordsFor(n), i)
    ensures w != ALL_ONES && 64 * c + FirstClear(w) < n ==> IsFirstZero(BitsOf(b, start, n), h, 64 * c + FirstClear(w))
    ensures !(w != ALL_ONES && 64 * c + FirstClear(w) < n) ==> Searched(BitsOf(b, start, n), h, WordsFor(n), i + 1)
  {
    var bits, words, r := BitsOf(b, start, n), WordsFor(n), 64 * c + FirstClear(w);
    WordOutcome(b, start, n, c, 0, w);
    if w != ALL_ONES && r < n {
      FoundIsFirst(bits, h, words, i, c, r);
    } else {
      SearchedGrows(bits, h, words, i, c);
    }
  }

  /** A view over part of a buffer; it does not own the bytes. */
  class Bitmap {
    const data: array<Byte>
    const start: nat
    const numBits: nat

    ghost predicate Valid() {
      start + 8 * WordsFor(numBits) <= data.Length
    }

    /** `AsBitmap(data[start:start+length], numBits)`; the code asserts alignment and size
        and takes the address of the first byte. */
    constructor (data: array<Byte>, start: nat, length: nat, numBits: nat)
      requires start + length <= data.Length && length % 8 == 0 && length > 0
      requires length >= 8 * WordsFor(numBits)
      ensures this.data == data && this.start == start && this.numBits == numBits && Valid()
    {
      this.data := data;
      this.start := start;
      this.numBits := numBits;
    }

    /** The bits as one sequence. */
    ghost function View(): (bits: seq<bool>)
      requires Valid()
      reads data
      ensures |bits| == numBits
    {
      BitsOf(data[..], start, numBits)
    }

    /** Does not panic: the index falls into one of the words. Truncation puts the indices
        -63 to -1 into the first. */
    predicate InWords(i: int) {
      numBits > 0 && -64 < i < 64 * WordsFor(numBits)
    }

    /** Returns the previous value. Negative indices read false and change nothing. */
    method SetBit(i: int, on: bool) returns (originalValue: bool)
      requires Valid() && InWords(i)
      modifies data
      ensures data[..] == if i >= 0 then SetBitIn(old(data[..]), start, i, on) else old(data[..])
      ensures originalValue == (i >= 0 && BitOf(old(data[..]), start, i))
    {
      IndexInBounds(numBits, start, i);
      var boardIndex, bitIndex := WordIndex(i), BitIndex(i);
      var mask := OneShifted(bitIndex);
      var currentBoard := WordAt(data[..], start + 8 * boardIndex);
      ReadThrough(currentBoard, bitIndex);
      WriteThrough(currentBoard, bitIndex, on);
      originalValue := And(currentBoard, mask) != 0;
      var board := if on then Or(currentBoard, mask) else And(currentBoard, Complement(mask));
      WordWritten(data[..], start, i, on);
      StoreWord(start + 8 * boardIndex, board);
    }

    method StoreWord(off: nat, w: Word)
      requires off + 8 <= data.Length
      modifies data
      ensures data[..] == PutWord(old(data[..]), off, w)
    {
      var bytes := Encode(w, 8);
      forall k | 0 <= k < 8 {
        data[off + k] := bytes[k];
      }
      assert data[..] == Splice(old(data[..]), off, bytes);
    }

    method LoadBit(i: int) returns (on: bool)
      requires Valid() && InWords(i)
      ensures on == (i >= 0 && BitOf(data[..], start, i))
    {
      IndexInBounds(numBits, start, i);
      var currentBoard := WordAt(data[..], start + 8 * WordIndex(i));
      ReadThrough(currentBoard, BitIndex(i));
      return And(currentBoard, OneShifted(BitIndex(i))) != 0;
    }

    /** Word by word, padding bits ignored, and yet the plain cyclic scan. */
    method FindFirstZero(startHint: nat) returns (r: int)
      requires Valid()
      ensures r == CyclicScan(View(), startHint)
    {
      if numBits == 0 {
        return -1;
      }
      r := SearchFrom(startHint % numBits);
      ScanIsFirstZero(View(), startHint, r);
    }

    method SearchFrom(hint: nat) returns (r: int)
      requires Valid() && hint < numBits
      ensures IsFirstZero(View(), hint, r)
    {
      var bytes := data[..];
      BitInBounds(numBits, start, hint);
      var boardIndex, bitIndex := hint / 64, hint % 64;
      var word := Masked(WordAt(bytes, start + 8 * boardIndex), bitIndex);
      FirstWordOutcome(bytes, start, numBits, hint, boardIndex, bitIndex, word);
      if word != ALL_ONES {
        var resultIdx := boardIndex * 64 + FirstClear(word);
        if resultIdx < numBits {
          return resultIdx;
        }
      }
      r := SearchOtherWords(hint);
    }

    method SearchOtherWords(hint: nat) returns (r: int)
      requires Valid() && hint < numBits && Searched(View(), hint, WordsFor(numBits), 1)
      ensures IsFirstZero(View(), hint, r)
    {
      var bytes, words, boardIndex := data[..], WordsFor(numBits), hint / 64;
      var i := 1;
      while i <= words
        invariant 1 <= i <= words + 1 && Searched(BitsOf(bytes, start, numBits), hint, words, i)
      {
        var c := (boardIndex + i) % words;
        NextWord(boardIndex, i, words);
        var curr := WordAt(bytes, start + 8 * c);
        OtherWordOutcome(bytes, start, numBits, hint, i, c, curr);
        if curr != ALL_ONES {
          var resultIdx := c * 64 + FirstClear(curr);
          if resultIdx < numBits {
            return resultIdx;
          }
        }
        i := i + 1;
      }
      NothingFound(BitsOf(bytes, start, numBits), hint, words);
      return -1;
    }
  }
}
