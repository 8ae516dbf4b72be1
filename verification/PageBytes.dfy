/** Little-endian numbers inside byte buffers, and writes that touch one region only. */
module PageBytes {
  import opened Bits

  type Byte = x: int | 0 <= x < 256

  type Bytes = seq<Byte>

  // Regions.

  /** `b` with `chunk` written at `off`, as `copy(b[off:], chunk)` does when it fits. */
  function Splice(b: Bytes, off: nat, chunk: Bytes): (r: Bytes)
    requires off + |chunk| <= |b|
    ensures |r| == |b|
    ensures forall i :: 0 <= i < |b| ==> r[i] == if off <= i < off + |chunk| then chunk[i - off] else b[i]
  {
    b[..off] + chunk + b[off + |chunk|..]
  }

  predicate SameOn(a: Bytes, b: Bytes, lo: nat, hi: nat) {
    |a| == |b| && hi <= |a| && forall i :: lo <= i < hi ==> a[i] == b[i]
  }

  lemma SameSlice(a: Bytes, b: Bytes, lo: nat, hi: nat, from: nat, to: nat)
    requires SameOn(a, b, lo, hi) && lo <= from <= to <= hi
    ensures a[from..to] == b[from..to]
  {
  }

  lemma SpliceReads(b: Bytes, off: nat, chunk: Bytes)
    requires off + |chunk| <= |b|
    ensures Splice(b, off, chunk)[off..off + |chunk|] == chunk
  {
  }

  lemma SpliceKeeps(b: Bytes, off: nat, chunk: Bytes, lo: nat, hi: nat)
    requires off + |chunk| <= |b| && hi <= |b| && (hi <= off || off + |chunk| <= lo)
    ensures SameOn(Splice(b, off, chunk), b, lo, hi)
  {
  }

  function Zeros(n: nat): (b: Bytes)
    ensures |b| == n && forall i :: 0 <= i < n ==> b[i] == 0
  {
    seq(n, _ => 0)
  }

  // Numbers.

  function Encode(u: nat, n: nat): (b: Bytes)
    ensures |b| == n
  {
    if n == 0 then [] else [u % 256] + Encode(u / 256, n - 1)
  }

  function Decode(b: Bytes): (u: nat) {
    if b == [] then 0 else b[0] + 256 * Decode(b[1..])
  }

  function Power256(n: nat): (p: nat)
    ensures p > 0
  {
    if n == 0 then 1 else 256 * Power256(n - 1)
  }

  lemma {:induction false} DecodeEncode(u: nat, n: nat)
    requires u < Power256(n)
    ensures Decode(Encode(u, n)) == u
  {
    if n > 0 {
      DecodeEncode(u / 256, n - 1);
      assert Encode(u, n)[1..] == Encode(u / 256, n - 1);
    }
  }

  function Uint16(b: Bytes, off: nat): (u: nat)
    requires off + 2 <= |b|
    ensures u < 0x1_0000
  {
    b[off] as int + 256 * (b[off + 1] as int)
  }

  /** `PutUint16(b[off:], uint16(u))` */
  function PutUint16(b: Bytes, off: nat, u: nat): (r: Bytes)
    requires off + 2 <= |b|
    ensures |r| == |b|
    ensures u < 0x1_0000 ==> Uint16(r, off) == u
  {
    b[off := u % 256][off + 1 := u / 256 % 256]
  }

  // 64-bit words, as the unsafe cast to `[]uint64` sees them.

  lemma {:induction false} DecodeRange(b: Bytes)
    ensures Decode(b) < Power256(|b|)
  {
    if b != [] {
      DecodeRange(b[1..]);
    }
  }

  lemma EightBytes()
    ensures Power256(8) == WORD_LIMIT
  {
    assert Power256(3) == 0x100_0000;
    assert Power256(6) == 0x1_0000_0000_0000;
  }

  function WordAt(b: Bytes, off: nat): (w: Word)
    requires off + 8 <= |b|
  {
    EightBytes();
    DecodeRange(b[off..off + 8]);
    Decode(b[off..off + 8])
  }

  function PutWord(b: Bytes, off: nat, w: Word): (r: Bytes)
    requires off + 8 <= |b|
    ensures |r| == |b|
  {
    Splice(b, off, Encode(w, 8))
  }

  lemma WordAfterPut(b: Bytes, off: nat, w: Word, other: nat)
    requires off + 8 <= |b| && other + 8 <= |b|
    ensures WordAt(PutWord(b, off, w), off) == w
    ensures other + 8 <= off || off + 8 <= other ==> WordAt(PutWord(b, off, w), other) == WordAt(b, other)
  {
    var chunk := Encode(w, 8);
    SpliceReads(b, off, chunk);
    EightBytes();
    DecodeEncode(w, 8);
    if other + 8 <= off || off + 8 <= other {
      SpliceKeeps(b, off, chunk, other, other + 8);
      SameSlice(Splice(b, off, chunk), b, other, other + 8, other, other + 8);
    }
  }

  lemma {:induction false} EncodeDecode(b: Bytes)
    ensures Encode(Decode(b), |b|) == b
  {
    if b != [] {
      EncodeDecode(b[1..]);
      assert Decode(b) / 256 == Decode(b[1..]) && Decode(b) % 256 == b[0];
    }
  }

  /** Writing back the word that is there changes nothing. */
  lemma PutSameWord(b: Bytes, off: nat)
    requires off + 8 <= |b|
    ensures PutWord(b, off, WordAt(b, off)) == b
  {
    EncodeDecode(b[off..off + 8]);
  }
}
