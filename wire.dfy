/**
 * The primitive wire codecs every message codec is built from: fixed-width
 * integers, length-prefixed strings, and the `(bytes consumed, value)` pair
 * that every decoder returns.
 *
 * The primitive codecs belong to the serialization library the messages are
 * written against, whose code is not part of this model. This module fixes
 * one concrete encoding: fixed-width integers little-endian (signed ones in
 * two's complement), a 32-bit float as its four raw bytes, and a string as a
 * 4-byte little-endian byte count followed by the raw bytes.
 */
module Wire {

  datatype Option<+T> = None | Some(value: T)

  type byte = x: int | 0 <= x < 256
  type u16 = x: int | 0 <= x < 0x1_0000
  type i32 = x: int | -0x8000_0000 <= x < 0x8000_0000
  type u64 = x: int | 0 <= x < 0x1_0000_0000_0000_0000
  type i64 = x: int | -0x8000_0000_0000_0000 <= x < 0x8000_0000_0000_0000

  /** A 32-bit float, kept as its four-byte wire pattern (no float arithmetic is modelled). */
  type f32 = b: seq<byte> | |b| == 4 witness [0, 0, 0, 0]

  /** The all-zero float pattern, +0.0. */
  const PositiveZero: f32 := [0, 0, 0, 0]

  /*
   * IEEE 754 single precision, least significant byte first: the last byte
   * holds the sign bit and the top seven exponent bits, the third byte the
   * lowest exponent bit and the top seven fraction bits.
   */

  /** A NaN: every exponent bit set and a non-zero fraction. */
  predicate F32IsNaN(x: f32)
  {
    x[3] % 128 == 127 && x[2] >= 128 && (x[2] % 128 != 0 || x[1] != 0 || x[0] != 0)
  }

  /** +0.0 or -0.0: every bit but the sign clear. */
  predicate F32IsZero(x: f32)
  {
    x[0] == 0 && x[1] == 0 && x[2] == 0 && x[3] % 128 == 0
  }

  /**
   * The float `==`: a NaN equals nothing, the two zeros are equal, and any
   * other two values are equal exactly when their patterns are, since every
   * other value has a single encoding.
   */
  predicate F32Equal(x: f32, y: f32)
  {
    !F32IsNaN(x) && !F32IsNaN(y) && (x == y || (F32IsZero(x) && F32IsZero(y)))
  }

  /** What every decoder returns: the bytes it consumed and the value, `(0, none)` on failure. */
  datatype Decoded<+T> = Decoded(consumed: nat, value: Option<T>) {
    predicate Ok() { value.Some? }
  }

  function Fail<T>(): (r: Decoded<T>)
    ensures r.consumed == 0 && r.value.None?
  {
    Decoded(0, None)
  }

  // ---------------------------------------------------------------------
  // Unsigned little-endian integers

  function Pow256(n: nat): (r: nat)
    ensures r >= 1
  {
    if n == 0 then 1 else 256 * Pow256(n - 1)
  }

  /** The `n` low-order bytes of `x`, least significant first (`x` is reduced modulo 256^n). */
  function LittleEndian(x: nat, n: nat): (b: seq<byte>)
    ensures |b| == n
  {
    if n == 0 then [] else [(x % 256) as byte] + LittleEndian(x / 256, n - 1)
  }

  /** The unsigned value of a little-endian byte string; it always fits in the string's width. */
  function FromLittleEndian(b: seq<byte>): (x: nat)
    ensures x < Pow256(|b|)
  {
    if b == [] then 0 else b[0] as nat + 256 * FromLittleEndian(b[1..])
  }

  lemma {:induction false} LittleEndianRoundTrip(x: nat, n: nat)
    requires x < Pow256(n)
    ensures FromLittleEndian(LittleEndian(x, n)) == x
  {
    if n > 0 {
      var b := LittleEndian(x, n);
      assert b[1..] == LittleEndian(x / 256, n - 1);
      LittleEndianRoundTrip(x / 256, n - 1);
    }
  }

  /** Every byte string is the encoding of its own value: the encoding is canonical. */
  lemma {:induction false} LittleEndianOfValue(b: seq<byte>)
    ensures LittleEndian(FromLittleEndian(b), |b|) == b
  {
    if b != [] {
      var x := FromLittleEndian(b);
      assert x % 256 == b[0] && x / 256 == FromLittleEndian(b[1..]);
      LittleEndianOfValue(b[1..]);
    }
  }

  lemma Pow256Widths()
    ensures Pow256(4) == 0x1_0000_0000
    ensures Pow256(8) == 0x1_0000_0000_0000_0000
  {
  }

  // ---------------------------------------------------------------------
  // Fixed-width integers

  /** `Marshal<u32>`, used here only for length prefixes: the count is truncated to 32 bits. */
  function U32Bytes(x: nat): (b: seq<byte>)
    ensures |b| == 4
  {
    LittleEndian(x, 4)
  }

  function I32Bytes(x: i32): (b: seq<byte>)
    ensures |b| == 4
  {
    LittleEndian(if x < 0 then x + 0x1_0000_0000 else x, 4)
  }

  /** The unsigned value of four little-endian bytes. */
  function U32Of(b: seq<byte>): (x: nat)
    requires |b| == 4
    ensures x < 0x1_0000_0000
  {
    Pow256Widths();
    FromLittleEndian(b)
  }

  function I32Of(b: seq<byte>): i32
    requires |b| == 4
  {
    var u := U32Of(b);
    if u < 0x8000_0000 then u else u - 0x1_0000_0000
  }

  function U64Bytes(x: u64): (b: seq<byte>)
    ensures |b| == 8
  {
    LittleEndian(x, 8)
  }

  /** The unsigned value of eight little-endian bytes. */
  function U64Of(b: seq<byte>): u64
    requires |b| == 8
  {
    Pow256Widths();
    FromLittleEndian(b)
  }

  function I64Bytes(x: i64): (b: seq<byte>)
    ensures |b| == 8
  {
    LittleEndian(if x < 0 then x + 0x1_0000_0000_0000_0000 else x, 8)
  }

  function I64Of(b: seq<byte>): i64
    requires |b| == 8
  {
    var u := U64Of(b);
    if u < 0x8000_0000_0000_0000 then u else u - 0x1_0000_0000_0000_0000
  }

  /** The `u64` to `i64` conversion applied when an unsigned id is written as an `i64`. */
  function U64AsI64(x: u64): i64
  {
    if x < 0x8000_0000_0000_0000 then x else x - 0x1_0000_0000_0000_0000
  }

  /** The `i64` to `u64` conversion applied when an `i64` is stored into an unsigned id. */
  function I64AsU64(x: i64): u64
  {
    if x < 0 then x + 0x1_0000_0000_0000_0000 else x
  }

  lemma U32OfValue(b: seq<byte>)
    requires |b| == 4
    ensures U32Of(b) == FromLittleEndian(b)
  {
  }

  lemma U64OfValue(b: seq<byte>)
    requires |b| == 8
    ensures U64Of(b) == FromLittleEndian(b)
  {
  }

  /** Four bytes read as zero exactly when they are all zero. */
  lemma U32OfZero(b: seq<byte>)
    requires |b| == 4
    ensures U32Of(b) == 0 <==> b == [0, 0, 0, 0]
  {
    if U32Of(b) == 0 {
      LittleEndianOfValue(b);
      assert LittleEndian(0, 4) == [0, 0, 0, 0];
    }
    if b == [0, 0, 0, 0] {
      assert FromLittleEndian(b[3..]) == 0;
      assert FromLittleEndian(b[2..]) == 0;
      assert FromLittleEndian(b[1..]) == 0;
    }
  }

  lemma I32RoundTrip(x: i32)
    ensures I32Of(I32Bytes(x)) == x
  {
    Pow256Widths();
    LittleEndianRoundTrip(if x < 0 then x + 0x1_0000_0000 else x, 4);
    U32OfValue(I32Bytes(x));
  }

  lemma U32RoundTrip(x: nat)
    requires x < 0x1_0000_0000
    ensures U32Of(U32Bytes(x)) == x
  {
    Pow256Widths();
    LittleEndianRoundTrip(x, 4);
    U32OfValue(U32Bytes(x));
  }

  lemma U64RoundTrip(x: u64)
    ensures U64Of(U64Bytes(x)) == x
  {
    Pow256Widths();
    LittleEndianRoundTrip(x, 8);
    U64OfValue(U64Bytes(x));
  }

  lemma I64RoundTrip(x: i64)
    ensures I64Of(I64Bytes(x)) == x
  {
    Pow256Widths();
    LittleEndianRoundTrip(if x < 0 then x + 0x1_0000_0000_0000_0000 else x, 8);
    U64OfValue(I64Bytes(x));
  }

  lemma I32Canonical(b: seq<byte>)
    requires |b| == 4
    ensures I32Bytes(I32Of(b)) == b
  {
    Pow256Widths();
    LittleEndianOfValue(b);
    U32OfValue(b);
  }

  lemma U64Canonical(b: seq<byte>)
    requires |b| == 8
    ensures U64Bytes(U64Of(b)) == b
  {
    Pow256Widths();
    LittleEndianOfValue(b);
    U64OfValue(b);
  }

  lemma I64Canonical(b: seq<byte>)
    requires |b| == 8
    ensures I64Bytes(I64Of(b)) == b
  {
    Pow256Widths();
    LittleEndianOfValue(b);
    U64OfValue(b);
  }

  /** An unsigned id written as an `i64` and read back into a `u64` is unchanged, byte for byte. */
  lemma IdAsI64RoundTrip(x: u64)
    ensures I64Bytes(U64AsI64(x)) == U64Bytes(x)
    ensures I64AsU64(I64Of(I64Bytes(U64AsI64(x)))) == x
  {
    I64RoundTrip(U64AsI64(x));
  }

  /** Reads of a fixed-width field at cursor `p`. */
  function U32At(d: seq<byte>, p: nat): (x: nat)
    requires p + 4 <= |d|
    ensures x < 0x1_0000_0000
  {
    U32Of(d[p..p + 4])
  }

  function I32At(d: seq<byte>, p: nat): i32
    requires p + 4 <= |d|
  {
    I32Of(d[p..p + 4])
  }

  function U64At(d: seq<byte>, p: nat): u64
    requires p + 8 <= |d|
  {
    U64Of(d[p..p + 8])
  }

  function I64At(d: seq<byte>, p: nat): i64
    requires p + 8 <= |d|
  {
    I64Of(d[p..p + 8])
  }

  function F32At(d: seq<byte>, p: nat): f32
    requires p + 4 <= |d|
  {
    d[p..p + 4]
  }

  /** Writes the encoding of `x` over the four bytes of `a` at `p`, leaving the rest of `a` alone. */
  method WriteI32(a: array<byte>, p: nat, x: i32)
    requires p + 4 <= a.Length
    modifies a
    ensures a[..] == old(a[..p]) + I32Bytes(x) + old(a[p + 4..])
  {
    var b := I32Bytes(x);
    for i := 0 to 4
      invariant a[..p] == old(a[..p])
      invariant a[p..p + i] == b[..i]
      invariant a[p + 4..] == old(a[p + 4..])
    {
      a[p + i] := b[i];
      assert a[p..p + i + 1] == a[p..p + i] + [b[i]];
      assert b[..i + 1] == b[..i] + [b[i]];
    }
    assert a[..] == a[..p] + a[p..p + 4] + a[p + 4..];
  }

  /** Two's-complement wrap-around of a signed 32-bit result. */
  function Wrap32(x: int): (r: i32)
    ensures -0x8000_0000 <= x < 0x8000_0000 ==> r == x
    ensures (r - x) % 0x1_0000_0000 == 0
  {
    (x + 0x8000_0000) % 0x1_0000_0000 - 0x8000_0000
  }

  // ---------------------------------------------------------------------
  // Strings

  /** `Marshal<std::string>`: a 4-byte byte count, then the raw bytes. */
  function StrBytes(s: seq<byte>): (b: seq<byte>)
    ensures |b| == 4 + |s|
  {
    U32Bytes(|s|) + s
  }

  /** `Unmarshal<std::string>` on the span starting at the cursor. */
  function ParseStr(d: seq<byte>): (r: Decoded<seq<byte>>)
    ensures r.Ok() ==> 4 <= r.consumed <= |d| && r.value.value == d[4..r.consumed]
    ensures !r.Ok() ==> r == Fail()
  {
    if |d| < 4 then Fail()
    else
      var n := U32At(d, 0);
      if 4 + n > |d| then Fail() else Decoded(4 + n, Some(d[4..4 + n]))
  }

  // ---------------------------------------------------------------------
  // Agreement of a buffer with an encoding

  /**
   * `d` agrees with the encoding `e` wherever both are defined: `d` is `e`
   * followed by trailing bytes, or `d` is `e` cut short.
   */
  ghost predicate Agree(d: seq<byte>, e: seq<byte>)
  {
    forall i :: 0 <= i < |d| && i < |e| ==> ByteAt(d, i) == ByteAt(e, i)
  }

  /**
   * The byte at index `i`. Agreement is stated through it so that a proof
   * about a decoder only compares the bytes that a lemma below asks about.
   */
  function ByteAt(d: seq<byte>, i: nat): byte
    requires i < |d|
  {
    d[i]
  }

  lemma AgreeExtended(e: seq<byte>, rest: seq<byte>)
    ensures Agree(e + rest, e)
  {
    forall i | 0 <= i < |e|
      ensures ByteAt(e + rest, i) == ByteAt(e, i)
    {
    }
  }

  lemma AgreeTruncated(e: seq<byte>, k: nat)
    requires k <= |e|
    ensures Agree(e[..k], e)
  {
    forall i | 0 <= i < k
      ensures ByteAt(e[..k], i) == ByteAt(e, i)
    {
    }
  }

  /** Where the buffer covers a window of the encoding, it holds exactly the window's bytes. */
  lemma AgreeWindow(d: seq<byte>, e: seq<byte>, p: nat, q: nat)
    requires Agree(d, e) && p <= q <= |d| && q <= |e|
    ensures d[p..q] == e[p..q]
  {
    forall i | p <= i < q
      ensures d[i] == e[i]
    {
      assert ByteAt(d, i) == ByteAt(e, i);
    }
  }

  /** Splitting an encoding `x + y` splits the agreement: `y` agrees with the buffer from `|x|` on. */
  lemma AgreeSplit(d: seq<byte>, x: seq<byte>, y: seq<byte>)
    requires Agree(d, x + y)
    ensures Agree(d, x)
    ensures |x| <= |d| ==> Agree(d[|x|..], y)
  {
    forall i | 0 <= i < |d| && i < |x|
      ensures ByteAt(d, i) == ByteAt(x, i)
    {
      assert ByteAt(d, i) == ByteAt(x + y, i);
    }
    if |x| <= |d| {
      forall i | 0 <= i < |d| - |x| && i < |y|
        ensures ByteAt(d[|x|..], i) == ByteAt(y, i)
      {
        assert ByteAt(d, |x| + i) == ByteAt(x + y, |x| + i);
      }
    }
  }

  /** A fixed-width read at `p` where the buffer from `p` on agrees with the field's encoding. */
  lemma ReadU32(d: seq<byte>, p: nat, x: nat)
    requires x < 0x1_0000_0000 && p + 4 <= |d| && Agree(d[p..], U32Bytes(x))
    ensures U32At(d, p) == x
  {
    AgreeWindow(d[p..], U32Bytes(x), 0, 4);
    assert d[p..p + 4] == d[p..][0..4];
    assert U32Bytes(x)[0..4] == U32Bytes(x);
    U32RoundTrip(x);
  }

  lemma ReadI32(d: seq<byte>, p: nat, x: i32)
    requires p + 4 <= |d| && Agree(d[p..], I32Bytes(x))
    ensures I32At(d, p) == x
  {
    AgreeWindow(d[p..], I32Bytes(x), 0, 4);
    assert d[p..p + 4] == d[p..][0..4];
    assert I32Bytes(x)[0..4] == I32Bytes(x);
    I32RoundTrip(x);
  }

  lemma ReadU64(d: seq<byte>, p: nat, x: u64)
    requires p + 8 <= |d| && Agree(d[p..], U64Bytes(x))
    ensures U64At(d, p) == x
  {
    AgreeWindow(d[p..], U64Bytes(x), 0, 8);
    assert d[p..p + 8] == d[p..][0..8];
    assert U64Bytes(x)[0..8] == U64Bytes(x);
    U64RoundTrip(x);
  }

  lemma ReadI64(d: seq<byte>, p: nat, x: i64)
    requires p + 8 <= |d| && Agree(d[p..], I64Bytes(x))
    ensures I64At(d, p) == x
  {
    AgreeWindow(d[p..], I64Bytes(x), 0, 8);
    assert d[p..p + 8] == d[p..][0..8];
    assert I64Bytes(x)[0..8] == I64Bytes(x);
    I64RoundTrip(x);
  }

  lemma ReadF32(d: seq<byte>, p: nat, x: f32)
    requires p + 4 <= |d| && Agree(d[p..], x)
    ensures F32At(d, p) == x
  {
    AgreeWindow(d[p..], x, 0, 4);
    assert d[p..p + 4] == d[p..][0..4];
  }

  /**
   * A string decoder run on a buffer that agrees with the string's encoding
   * recovers the string exactly when the whole encoding is present, and
   * fails otherwise.
   */
  lemma ParseStrAgree(d: seq<byte>, s: seq<byte>)
    requires |s| < 0x1_0000_0000 && Agree(d, StrBytes(s))
    ensures ParseStr(d) == if |StrBytes(s)| <= |d| then Decoded(|StrBytes(s)|, Some(s)) else Fail()
  {
    AgreeSplit(d, U32Bytes(|s|), s);
    if |d| >= 4 {
      ReadU32(d, 0, |s|);
      if 4 + |s| <= |d| {
        AgreeWhole(d[4..], s);
        DropTake(d, 4, |s|);
      }
    }
  }

  /** A buffer that agrees with all of an encoding starts with it. */
  lemma AgreeWhole(d: seq<byte>, e: seq<byte>)
    requires Agree(d, e) && |e| <= |d|
    ensures d[..|e|] == e
  {
    AgreeWindow(d, e, 0, |e|);
  }

  lemma DropNothing(d: seq<byte>)
    ensures d[0..] == d
  {
  }

  lemma TakeFromStart(d: seq<byte>, k: nat)
    requires k <= |d|
    ensures d[..k] == d[0..k]
  {
  }

  lemma DropTake(d: seq<byte>, p: nat, k: nat)
    requires p + k <= |d|
    ensures d[p..][..k] == d[p..p + k]
  {
  }

  /** A prefix of the buffer is the prefix before `j` followed by the bytes from `j` to `k`. */
  lemma PrefixSplit(d: seq<byte>, j: nat, k: nat)
    requires j <= k <= |d|
    ensures d[..k] == d[..j] + d[j..k]
  {
  }

  /** Two adjacent stretches of the buffer, each the encoding of a field, make up the encoding of both. */
  lemma PrefixJoin(d: seq<byte>, j: nat, k: nat, x: seq<byte>, y: seq<byte>)
    requires j <= k <= |d| && d[..j] == x && d[j..k] == y
    ensures d[..k] == x + y
  {
    assert d[..k] == d[..j] + d[j..k];
  }

  /** The bytes a fixed-width read looked at are the encoding of the value it returned. */
  lemma U32Back(d: seq<byte>, p: nat)
    requires p + 4 <= |d|
    ensures d[p..p + 4] == U32Bytes(U32At(d, p))
  {
    Pow256Widths();
    LittleEndianOfValue(d[p..p + 4]);
    U32OfValue(d[p..p + 4]);
  }

  lemma I32Back(d: seq<byte>, p: nat)
    requires p + 4 <= |d|
    ensures d[p..p + 4] == I32Bytes(I32At(d, p))
  {
    I32Canonical(d[p..p + 4]);
  }

  lemma U64Back(d: seq<byte>, p: nat)
    requires p + 8 <= |d|
    ensures d[p..p + 8] == U64Bytes(U64At(d, p))
  {
    U64Canonical(d[p..p + 8]);
  }

  lemma I64Back(d: seq<byte>, p: nat)
    requires p + 8 <= |d|
    ensures d[p..p + 8] == I64Bytes(I64At(d, p))
    ensures d[p..p + 8] == I64Bytes(U64AsI64(I64AsU64(I64At(d, p))))
  {
    I64Canonical(d[p..p + 8]);
  }

  /** What the string decoder accepted is exactly the encoding of the string it returned. */
  lemma ParseStrSound(d: seq<byte>)
    requires ParseStr(d).Ok()
    ensures var r := ParseStr(d); |r.value.value| < 0x1_0000_0000 && d[..r.consumed] == StrBytes(r.value.value)
  {
    var r := ParseStr(d);
    U32Back(d, 0);
    assert d[..4] == d[0..4];
    PrefixJoin(d, 4, r.consumed, U32Bytes(U32At(d, 0)), r.value.value);
  }

  /** The string decoder run at cursor `p` accepted exactly the encoding of the string it returned. */
  lemma StrBack(d: seq<byte>, p: nat)
    requires p <= |d| && ParseStr(d[p..]).Ok()
    ensures var r := ParseStr(d[p..]);
      p + r.consumed <= |d| && |r.value.value| < 0x1_0000_0000 && d[p..p + r.consumed] == StrBytes(r.value.value)
  {
    ParseStrSound(d[p..]);
    DropTake(d, p, ParseStr(d[p..]).consumed);
  }

  /** Extends a decoded prefix `x` of `d` by the string decoded at its end. */
  lemma StrJoin(d: seq<byte>, p: nat, x: seq<byte>)
    requires p <= |d| && d[..p] == x && ParseStr(d[p..]).Ok()
    ensures var r := ParseStr(d[p..]);
      p + r.consumed <= |d| && |r.value.value| < 0x1_0000_0000 && d[..p + r.consumed] == x + StrBytes(r.value.value)
  {
    StrBack(d, p);
    PrefixJoin(d, p, p + ParseStr(d[p..]).consumed, x, StrBytes(ParseStr(d[p..]).value.value));
  }

  lemma StrRoundTrip(s: seq<byte>, rest: seq<byte>)
    requires |s| < 0x1_0000_0000
    ensures ParseStr(StrBytes(s) + rest) == Decoded(4 + |s|, Some(s))
  {
    AgreeExtended(StrBytes(s), rest);
    ParseStrAgree(StrBytes(s) + rest, s);
  }

  // ---------------------------------------------------------------------
  // Vectors

  /** The elements' encodings, one after the other. */
  function Concat<T>(enc: T -> seq<byte>, xs: seq<T>): seq<byte>
  {
    if xs == [] then [] else enc(xs[0]) + Concat(enc, xs[1..])
  }

  /** `Marshal<std::vector<T>>`: a 4-byte element count, then each element. */
  function VectorBytes<T>(enc: T -> seq<byte>, xs: seq<T>): seq<byte>
  {
    U32Bytes(|xs|) + Concat(enc, xs)
  }

  /** An element decoder never claims more bytes than it was given. */
  ghost predicate Bounded<T>(parse: seq<byte> -> Decoded<T>)
  {
    forall x :: parse(x).consumed <= |x|
  }

  /** Decode `n` elements one after the other from the start of `d`; any failure fails them all. */
  function ParseMany<T>(parse: seq<byte> -> Decoded<T>, d: seq<byte>, n: nat): (r: Decoded<seq<T>>)
    requires Bounded(parse)
    ensures r.consumed <= |d|
    ensures r.Ok() ==> |r.value.value| == n
    ensures !r.Ok() ==> r == Fail()
    decreases n
  {
    if n == 0 then Decoded(0, Some([]))
    else
      var first := parse(d);
      if !first.Ok() then Fail()
      else
        var rest := ParseMany(parse, d[first.consumed..], n - 1);
        if !rest.Ok() then Fail()
        else Decoded(first.consumed + rest.consumed, Some([first.value.value] + rest.value.value))
  }

  /** `Unmarshal<std::vector<T>>`: read the count, then that many elements. */
  function ParseVector<T>(parse: seq<byte> -> Decoded<T>, d: seq<byte>): (r: Decoded<seq<T>>)
    requires Bounded(parse)
    ensures r.consumed <= |d|
    ensures !r.Ok() ==> r == Fail()
  {
    if |d| < 4 then Fail()
    else
      var n := U32At(d, 0);
      var items := ParseMany(parse, d[4..], n);
      if !items.Ok() then Fail() else Decoded(4 + items.consumed, items.value)
  }

  /**
   * The element decoder is exact for the element encoder on valid elements:
   * on a buffer that agrees with an element's encoding it recovers the
   * element when the whole encoding is there, and fails otherwise.
   */
  ghost predicate ExactFor<T(!new)>(parse: seq<byte> -> Decoded<T>, enc: T -> seq<byte>, valid: T -> bool)
  {
    forall x, v {:trigger Agree(x, enc(v))} :: valid(v) && Agree(x, enc(v)) ==>
      parse(x) == if |enc(v)| <= |x| then Decoded(|enc(v)|, Some(v)) else Fail()
  }

  /** Whatever the element decoder accepts is a valid element's encoding. */
  ghost predicate SoundFor<T>(parse: seq<byte> -> Decoded<T>, enc: T -> seq<byte>, valid: T -> bool)
  {
    forall x :: parse(x).Ok() ==>
      parse(x).consumed <= |x| && valid(parse(x).value.value) && x[..parse(x).consumed] == enc(parse(x).value.value)
  }

  lemma {:induction false} ParseManyAgree<T(!new)>(parse: seq<byte> -> Decoded<T>, enc: T -> seq<byte>, valid: T -> bool,
                                                    d: seq<byte>, xs: seq<T>)
    requires Bounded(parse) && ExactFor(parse, enc, valid)
    requires (forall i :: 0 <= i < |xs| ==> valid(xs[i])) && Agree(d, Concat(enc, xs))
    ensures ParseMany(parse, d, |xs|) ==
      if |Concat(enc, xs)| <= |d| then Decoded(|Concat(enc, xs)|, Some(xs)) else Fail()
    decreases |xs|
  {
    if xs != [] {
      var head := enc(xs[0]);
      AgreeSplit(d, head, Concat(enc, xs[1..]));
      assert valid(xs[0]);
      if |head| <= |d| {
        ParseManyAgree(parse, enc, valid, d[|head|..], xs[1..]);
        assert [xs[0]] + xs[1..] == xs;
      }
    }
  }

  lemma {:induction false} ParseManySound<T>(parse: seq<byte> -> Decoded<T>, enc: T -> seq<byte>, valid: T -> bool,
                                              d: seq<byte>, n: nat)
    requires Bounded(parse) && SoundFor(parse, enc, valid) && ParseMany(parse, d, n).Ok()
    ensures var r := ParseMany(parse, d, n);
      (forall i :: 0 <= i < |r.value.value| ==> valid(r.value.value[i]))
      && d[..r.consumed] == Concat(enc, r.value.value)
    decreases n
  {
    if n > 0 {
      var first := parse(d);
      var c := first.consumed;
      var rest := ParseMany(parse, d[c..], n - 1);
      ParseManySound(parse, enc, valid, d[c..], n - 1);
      var r := ParseMany(parse, d, n);
      assert r.value.value[0] == first.value.value && r.value.value[1..] == rest.value.value;
      DropTake(d, c, rest.consumed);
      PrefixJoin(d, c, r.consumed, enc(first.value.value), Concat(enc, rest.value.value));
    }
  }

  /** The vector decoder recovers any short enough list of valid elements from a buffer that agrees with its encoding. */
  lemma ParseVectorAgree<T(!new)>(parse: seq<byte> -> Decoded<T>, enc: T -> seq<byte>, valid: T -> bool,
                                  d: seq<byte>, xs: seq<T>)
    requires Bounded(parse) && ExactFor(parse, enc, valid)
    requires |xs| < 0x1_0000_0000 && (forall i :: 0 <= i < |xs| ==> valid(xs[i]))
    requires Agree(d, VectorBytes(enc, xs))
    ensures ParseVector(parse, d) ==
      if |VectorBytes(enc, xs)| <= |d| then Decoded(|VectorBytes(enc, xs)|, Some(xs)) else Fail()
  {
    AgreeSplit(d, U32Bytes(|xs|), Concat(enc, xs));
    if |d| >= 4 {
      ReadU32(d, 0, |xs|);
      ParseManyAgree(parse, enc, valid, d[4..], xs);
    }
  }

  /** What the vector decoder accepts is exactly the encoding of the list it returns. */
  lemma ParseVectorSound<T>(parse: seq<byte> -> Decoded<T>, enc: T -> seq<byte>, valid: T -> bool, d: seq<byte>)
    requires Bounded(parse) && SoundFor(parse, enc, valid) && ParseVector(parse, d).Ok()
    ensures var r := ParseVector(parse, d);
      |r.value.value| < 0x1_0000_0000 && (forall i :: 0 <= i < |r.value.value| ==> valid(r.value.value[i]))
      && d[..r.consumed] == VectorBytes(enc, r.value.value)
  {
    var r := ParseVector(parse, d);
    var items := ParseMany(parse, d[4..], U32At(d, 0));
    ParseManySound(parse, enc, valid, d[4..], U32At(d, 0));
    U32Back(d, 0);
    assert d[..4] == d[0..4];
    DropTake(d, 4, items.consumed);
    PrefixJoin(d, 4, r.consumed, U32Bytes(|r.value.value|), Concat(enc, r.value.value));
  }
}
