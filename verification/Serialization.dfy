/** `Value.WriteTo` and `AsValue` of `common/types.go`: fixed-width storage with
    sentinels for NULL. */
module Serialization {
  import opened Bits
  import opened PageBytes
  import opened Values

  const INT_SIZE: nat := 8
  const STRING_LENGTH: nat := 32
  const MIN_INT64: int := -0x8000_0000_0000_0000

  function SizeOf(t: Type): nat {
    match t
    case IntType => INT_SIZE
    case StringType => STRING_LENGTH
  }

  /** `NewStringValue` admits no string longer than a field. */
  predicate Storable(v: Value) {
    v.Str? ==> |v.s| <= STRING_LENGTH
  }

  /** The 64-bit pattern of a signed integer. */
  function Unsigned(i: Int64): Word {
    if i >= 0 then i else i + WORD_LIMIT
  }

  function Signed(u: Word): Int64 {
    if u < 0x8000_0000_0000_0000 then u else u - WORD_LIMIT
  }

  function WriteValue(v: Value): (b: Bytes)
    requires Storable(v)
    ensures |b| == SizeOf(TypeOf(v))
  {
    match v
    case Int(i) => Encode(Unsigned(i), 8)
    case NullInt => Encode(0x8000_0000_0000_0000, 8)
    case Str(s) => s + Zeros(STRING_LENGTH - |s|)
    case NullString => [0xFF] + Zeros(STRING_LENGTH - 1)
  }

  /** The length of the string in a field: up to its first zero byte. */
  function RealLength(b: Bytes): (n: nat)
    ensures n <= |b| && (n < |b| ==> b[n] == 0) && forall i :: 0 <= i < n ==> b[i] != 0
  {
    if b == [] || b[0] == 0 then 0
    else
      var n := RealLength(b[1..]);
      assert forall i :: 1 <= i < |b| ==> b[i] == b[1..][i - 1];
      1 + n
  }

  lemma RealLengthIs(b: Bytes, n: nat)
    requires n <= |b| && (n < |b| ==> b[n] == 0) && forall i :: 0 <= i < n ==> b[i] != 0
    ensures RealLength(b) == n
  {
  }

  function ReadValue(t: Type, b: Bytes): Value
    requires |b| == SizeOf(t)
  {
    match t
    case IntType =>
      EightBytes();
      DecodeRange(b);
      var i := Signed(Decode(b));
      if i == MIN_INT64 then NullInt else Int(i)
    case StringType => if b[0] == 0xFF then NullString else Str(b[..RealLength(b)])
  }

  /** `AsValue` on the string branch, with its scan loop. */
  method AsString(source: Bytes) returns (v: Value)
    requires |source| >= STRING_LENGTH
    ensures v == ReadValue(StringType, source[..STRING_LENGTH])
  {
    var b := source[..STRING_LENGTH];
    if source[0] == 0xFF {
      return NullString;
    }
    var realLen, i := STRING_LENGTH, 0;
    while i < STRING_LENGTH
      invariant 0 <= i <= STRING_LENGTH && realLen == STRING_LENGTH
      invariant forall k :: 0 <= k < i ==> b[k] != 0
    {
      if source[i] == 0 {
        realLen := i;
        break;
      }
      i := i + 1;
    }
    RealLengthIs(b, realLen);
    assert source[..realLen] == b[..realLen];
    return Str(source[..realLen]);
  }

  /** What a stored value is read back as. */
  function AfterStorage(v: Value): (r: Value)
    requires Storable(v)
    ensures TypeOf(r) == TypeOf(v)
  {
    ReadValue(TypeOf(v), WriteValue(v))
  }

  /** The values that survive storage. */
  predicate Canonical(v: Value) {
    match v
    case Int(i) => i != MIN_INT64
    case Str(s) => |s| <= STRING_LENGTH && (forall k :: 0 <= k < |s| ==> s[k] != 0) && (s != [] ==> s[0] != 0xFF)
    case _ => true
  }

  lemma ReadWritten(v: Value)
    requires Canonical(v)
    ensures ReadValue(TypeOf(v), WriteValue(v)) == v
  {
    EightBytes();
    if v.Int? {
      DecodeEncode(Unsigned(v.i), 8);
    } else if v.NullInt? {
      DecodeEncode(0x8000_0000_0000_0000, 8);
    } else if v.Str? {
      var b := WriteValue(v);
      RealLengthIs(b, |v.s|);
      assert b[..|v.s|] == v.s;
    }
  }

  /** What comes out of storage is canonical. */
  lemma ReadIsCanonical(t: Type, b: Bytes)
    requires |b| == SizeOf(t)
    ensures Canonical(ReadValue(t, b)) && TypeOf(ReadValue(t, b)) == t
  {
    if t == StringType && b[0] != 0xFF {
      var n := RealLength(b);
      assert n > 0 ==> b[..n][0] == b[0];
    }
  }

  /** Storage is lossless exactly on the canonical values. */
  lemma RoundTripIffCanonical(v: Value)
    requires Storable(v)
    ensures ReadValue(TypeOf(v), WriteValue(v)) == v <==> Canonical(v)
  {
    ReadIsCanonical(TypeOf(v), WriteValue(v));
    if Canonical(v) {
      ReadWritten(v);
    }
  }

  /** On canonical values `Compare` is zero exactly when the stored bytes are equal. */
  lemma CompareIsByteEquality(v: Value, w: Value)
    requires Canonical(v) && Canonical(w) && TypeOf(v) == TypeOf(w)
    ensures Compare(v, w) == 0 <==> WriteValue(v) == WriteValue(w)
  {
    CompareZero(v, w);
    ReadWritten(v);
    ReadWritten(w);
  }

  /** Without that, distinct strings can share their bytes. */
  lemma TrailingNulIsLost()
    ensures Compare(Str([]), Str([0])) != 0 && WriteValue(Str([])) == WriteValue(Str([0]))
  {
    assert Zeros(32) == [0] + Zeros(31);
  }

  /** Nothing follows a NUL, nor a leading NULL marker. */
  predicate TailClear(v: Value) {
    v.Str? ==>
      if v.s != [] && v.s[0] == 0xFF then forall k :: 1 <= k < |v.s| ==> v.s[k] == 0
      else forall i, j :: 0 <= i < j < |v.s| && v.s[i] == 0 ==> v.s[j] == 0
  }

  lemma StringBytesSurviveIff(s: ByteString)
    requires |s| <= STRING_LENGTH
    ensures WriteValue(ReadValue(StringType, WriteValue(Str(s)))) == WriteValue(Str(s)) <==> TailClear(Str(s))
  {
    var b := WriteValue(Str(s));
    assert forall k :: 0 <= k < |s| ==> b[k] == s[k];
    var again := WriteValue(ReadValue(StringType, b));
    if b[0] == 0xFF {
      assert forall k :: 1 <= k < 32 ==> again[k] == 0;
    } else {
      var n := RealLength(b);
      assert forall k :: 0 <= k < 32 ==> again[k] == if k < n then b[k] else 0;
      if TailClear(Str(s)) && n < |s| {
        assert forall k :: n <= k < |s| ==> s[k] == 0;
      }
    }
  }

  /** The key bytes computed from a value before it is stored are those computed from the
      stored row later, exactly when nothing hides behind a NUL. Otherwise a delete looks
      for a key the insert never made. */
  lemma KeyBytesSurviveIff(v: Value)
    requires Storable(v)
    ensures WriteValue(ReadValue(TypeOf(v), WriteValue(v))) == WriteValue(v) <==> TailClear(v)
  {
    if v.Str? {
      StringBytesSurviveIff(v.s);
    } else if v.Int? && v.i == MIN_INT64 {
      EightBytes();
      DecodeEncode(0x8000_0000_0000_0000, 8);
    } else {
      ReadWritten(v);
    }
  }

  /** A string with a NUL inside is one whose key is lost. */
  lemma EmbeddedNulLosesKey()
    ensures WriteValue(ReadValue(StringType, WriteValue(Str([97, 0, 98])))) != WriteValue(Str([97, 0, 98]))
  {
    var s: ByteString := [97, 0, 98];
    assert s[1] == 0 && s[2] != 0;
    StringBytesSurviveIff(s);
  }

  // The stored bytes themselves.

  /** Eight bytes, the lowest first. */
  function LittleEndian(b: Bytes): int
    requires |b| == 8
  {
    b[0] as int + 0x100 * (b[1] as int) + 0x1_0000 * (b[2] as int) + 0x100_0000 * (b[3] as int)
    + 0x1_0000_0000 * (b[4] as int) + 0x100_0000_0000 * (b[5] as int)
    + 0x1_0000_0000_0000 * (b[6] as int) + 0x100_0000_0000_0000 * (b[7] as int)
  }

  lemma DecodeIsLittleEndian(b: Bytes)
    requires |b| == 8
    ensures Decode(b) == LittleEndian(b)
  {
    assert Decode(b[7..]) == b[7];
    assert Decode(b[6..]) == b[6] as int + 0x100 * (b[7] as int);
    assert Decode(b[5..]) == b[5] as int + 0x100 * Decode(b[6..]);
    assert Decode(b[4..]) == b[4] as int + 0x100 * Decode(b[5..]);
    assert Decode(b[3..]) == b[3] as int + 0x100 * Decode(b[4..]);
    assert Decode(b[2..]) == b[2] as int + 0x100 * Decode(b[3..]);
    assert Decode(b[1..]) == b[1] as int + 0x100 * Decode(b[2..]);
  }

  /** An integer is stored as its 64-bit two's complement, lowest byte first, NULL as the
      smallest one; a string as its bytes and then zeros, NULL as 0xFF and then zeros. */
  lemma StoredBytes(v: Value)
    requires Storable(v)
    ensures v.Int? ==> LittleEndian(WriteValue(v)) == if v.i >= 0 then v.i else v.i + 0x1_0000_0000_0000_0000
    ensures v.NullInt? ==> LittleEndian(WriteValue(v)) == 0x8000_0000_0000_0000
    ensures v.Str? ==> forall k :: 0 <= k < 32 ==> WriteValue(v)[k] == if k < |v.s| then v.s[k] else 0
    ensures v.NullString? ==> forall k :: 0 <= k < 32 ==> WriteValue(v)[k] == if k == 0 then 0xFF else 0
  {
    if TypeOf(v) == IntType {
      EightBytes();
      DecodeEncode(if v.Int? then Unsigned(v.i) else 0x8000_0000_0000_0000, 8);
      DecodeIsLittleEndian(WriteValue(v));
    }
  }
}
