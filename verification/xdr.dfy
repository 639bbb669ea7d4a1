/** XDR encoding (RFC 4506) of the primitive types the server exchanges:
    big-endian 32- and 64-bit integers (sections 4.1, 4.2, 4.5), booleans
    (section 4.4), variable-length opaque data (section 4.10), strings
    (section 4.11) and variable-length arrays of unsigned words (section 4.13).

    Every decoder reads from the front of a byte string and returns the value
    together with the bytes it did not consume, or `None` when the input ends
    too early. */
module Xdr {
  import opened Wrappers

  const TWO_31: int := 0x8000_0000
  const TWO_32: int := 0x1_0000_0000
  const TWO_64: int := 0x1_0000_0000_0000_0000

  type byte = b: int | 0 <= b < 0x100
  type Bytes = seq<byte>
  type u32 = x: int | 0 <= x < 0x1_0000_0000
  type i32 = x: int | -0x8000_0000 <= x < 0x8000_0000
  type u64 = x: int | 0 <= x < 0x1_0000_0000_0000_0000

  /** Byte strings whose length fits the 32-bit length prefix, so that
      `len() as u32` never truncates. */
  type Opaque = v: Bytes | |v| < 0x1_0000_0000

  /** Word arrays whose element count fits the 32-bit count prefix. */
  type U32Array = ws: seq<u32> | |ws| < 0x1_0000_0000

  /** What a decoder returns on success: the value read and the rest of the input. */
  type Decoded<T> = Option<(T, Bytes)>

  /** Regrouping a concatenation. */
  lemma ConcatAssoc<T>(a: seq<T>, b: seq<T>, c: seq<T>)
    ensures a + b + c == a + (b + c)
  {
  }

  /** The number held big-endian in the first four bytes of `s`. */
  function WordAt(s: Bytes): u32
    requires |s| >= 4
  {
    (s[0] as int) * 0x100_0000 + (s[1] as int) * 0x1_0000 + (s[2] as int) * 0x100 + s[3]
  }

  // ------------------------------------------------------------------
  // Unsigned and signed 32-bit integers, unsigned 64-bit integers
  // ------------------------------------------------------------------

  /** Splitting off the low byte of `q * 256 + r` gives back `q` and `r`. */
  lemma DivMod256(q: int, r: int)
    requires 0 <= r < 0x100
    ensures (q * 0x100 + r) / 0x100 == q && (q * 0x100 + r) % 0x100 == r
  {
  }

  /** `write_u32::<BigEndian>`: four bytes, most significant first. */
  function EncodeU32(x: u32): (r: Bytes)
    ensures |r| == 4 && WordAt(r) == x
  {
    var x1 := x / 0x100;
    var x2 := x1 / 0x100;
    assert x == x1 * 0x100 + x % 0x100 && x1 == x2 * 0x100 + x1 % 0x100;
    assert x2 == (x2 / 0x100) * 0x100 + x2 % 0x100 && x2 < 0x1_0000;
    [x2 / 0x100, x2 % 0x100, x1 % 0x100, x % 0x100]
  }

  /** Four bytes are the encoding of the word they hold: no two words share an encoding. */
  lemma WordAtEncodes(s: Bytes)
    requires |s| >= 4
    ensures EncodeU32(WordAt(s)) == s[..4]
  {
    var w := WordAt(s);
    var hi16 := (s[0] as int) * 0x100 + s[1];
    var hi24 := hi16 * 0x100 + s[2];
    assert w == hi24 * 0x100 + s[3];
    DivMod256(hi24, s[3]);
    DivMod256(hi16, s[2]);
    DivMod256(s[0], s[1]);
  }

  /** `read_u32::<BigEndian>`: fails exactly when fewer than four bytes remain. */
  function DecodeU32(s: Bytes): (r: Decoded<u32>)
    ensures r.Some? <==> |s| >= 4
    ensures r.Some? ==> s == EncodeU32(r.value.0) + r.value.1
  {
    if |s| < 4 then None
    else
      WordAtEncodes(s);
      Some((WordAt(s), s[4..]))
  }

  lemma U32RoundTrip(x: u32, rest: Bytes)
    ensures DecodeU32(EncodeU32(x) + rest) == Some((x, rest))
  {
    var s := EncodeU32(x) + rest;
    assert s[..4] == EncodeU32(x);
    assert s[4..] == rest;
  }

  /** The two's-complement bit pattern of a signed word. */
  function I32Bits(x: i32): u32 {
    if x < 0 then x + TWO_32 else x
  }

  /** `write_i32::<BigEndian>`: the sign lands in the top bit and the word is
      congruent to `x` modulo 2^32. */
  function EncodeI32(x: i32): (r: Bytes)
    ensures |r| == 4
    ensures WordAt(r) % TWO_32 == x % TWO_32
    ensures WordAt(r) >= TWO_31 <==> x < 0
  {
    EncodeU32(I32Bits(x))
  }

  /** `read_i32::<BigEndian>`: a word with the top bit set reads as negative. */
  function DecodeI32(s: Bytes): (r: Decoded<i32>)
    ensures r.Some? <==> |s| >= 4
    ensures r.Some? ==> s == EncodeI32(r.value.0) + r.value.1
  {
    var (w, rest) :- DecodeU32(s);
    Some((if w >= TWO_31 then w - TWO_32 else w, rest))
  }

  lemma I32RoundTrip(x: i32, rest: Bytes)
    ensures DecodeI32(EncodeI32(x) + rest) == Some((x, rest))
  {
    U32RoundTrip(I32Bits(x), rest);
  }

  /** `write_u64::<BigEndian>`: eight bytes, the high word first. */
  function EncodeU64(x: u64): (r: Bytes)
    ensures |r| == 8
    ensures WordAt(r) * TWO_32 + WordAt(r[4..]) == x
  {
    EncodeU32(x / TWO_32) + EncodeU32(x % TWO_32)
  }

  /** Splitting `hi * 2^32 + lo` at the word boundary gives back `hi` and `lo`. */
  lemma DivModWord(hi: u32, lo: u32)
    ensures (hi * TWO_32 + lo) / TWO_32 == hi && (hi * TWO_32 + lo) % TWO_32 == lo
  {
  }

  /** `read_u64::<BigEndian>`: fails exactly when fewer than eight bytes remain. */
  function DecodeU64(s: Bytes): (r: Decoded<u64>)
    ensures r.Some? <==> |s| >= 8
    ensures r.Some? ==> s == EncodeU64(r.value.0) + r.value.1
  {
    var (hi, s1) :- DecodeU32(s);
    var (lo, s2) :- DecodeU32(s1);
    var x := hi * TWO_32 + lo;
    assert x / TWO_32 == hi && x % TWO_32 == lo by {
      DivModWord(hi, lo);
    }
    assert s == EncodeU64(x) + s2;
    Some((x, s2))
  }

  lemma U64RoundTrip(x: u64, rest: Bytes)
    ensures DecodeU64(EncodeU64(x) + rest) == Some((x, rest))
  {
    var hi, lo := x / TWO_32, x % TWO_32;
    U32RoundTrip(hi, EncodeU32(lo) + rest);
    U32RoundTrip(lo, rest);
    assert EncodeU64(x) + rest == EncodeU32(hi) + (EncodeU32(lo) + rest);
  }

  // ------------------------------------------------------------------
  // Booleans
  // ------------------------------------------------------------------

  /** A boolean travels as the word 1 (true) or 0 (false). */
  function EncodeBool(b: bool): (r: Bytes)
    ensures |r| == 4 && WordAt(r) <= 1
    ensures b <==> WordAt(r) != 0
  {
    var v: u32 := if b then 1 else 0;
    EncodeU32(v)
  }

  /** Any nonzero word reads as true. */
  function DecodeBool(s: Bytes): (r: Decoded<bool>)
    ensures r.Some? <==> |s| >= 4
    ensures r.Some? ==> (r.value.0 <==> WordAt(s) != 0) && r.value.1 == s[4..]
  {
    var (v, rest) :- DecodeU32(s);
    Some((v != 0, rest))
  }

  lemma BoolRoundTrip(b: bool, rest: Bytes)
    ensures DecodeBool(EncodeBool(b) + rest) == Some((b, rest))
  {
    U32RoundTrip(if b then 1 else 0, rest);
  }

  // ------------------------------------------------------------------
  // Variable-length opaque data and strings
  // ------------------------------------------------------------------

  /** Bytes of padding after `n` data bytes: `(4 - n % 4) % 4`. */
  function Pad(n: nat): (p: nat)
    ensures p < 4 && (n + p) % 4 == 0
  {
    (4 - n % 4) % 4
  }

  function Zeros(n: nat): (r: Bytes)
    ensures |r| == n && forall i | 0 <= i < n :: r[i] == 0
  {
    seq(n, _ => 0)
  }

  /** `Vec<u8>` serialisation: length word, the bytes, then zero padding to a
      multiple of four. */
  function EncodeOpaque(v: Opaque): (r: Bytes)
    ensures |r| == 4 + |v| + Pad(|v|) && |r| % 4 == 0
    ensures WordAt(r) == |v| && r[4..4 + |v|] == v
    ensures forall i | 4 + |v| <= i < |r| :: r[i] == 0
  {
    var r := EncodeU32(|v|) + v + Zeros(Pad(|v|));
    assert r[..4] == EncodeU32(|v|) && r[4..4 + |v|] == v;
    r
  }

  /** `Vec<u8>` deserialisation: reads the declared length, that many bytes,
      and then skips the padding WITHOUT checking that it is zero. It fails
      rather than return a truncated value when the input is too short. */
  function DecodeOpaque(s: Bytes): (r: Decoded<Opaque>)
    ensures r.Some? <==> |s| >= 4 && 4 + WordAt(s) + Pad(WordAt(s)) <= |s|
    ensures r.Some? ==>
      var (v, rest) := r.value;
      |v| == WordAt(s) && s[4..4 + |v|] == v && rest == s[4 + |v| + Pad(|v|)..]
  {
    var (n, rest) :- DecodeU32(s);
    if |rest| < n then None
    else
      var pad := Pad(n);
      if pad > 0 && |rest| - n < pad then None
      else Some((rest[..n], rest[n + pad..]))
  }

  lemma OpaqueRoundTrip(v: Opaque, rest: Bytes)
    ensures DecodeOpaque(EncodeOpaque(v) + rest) == Some((v, rest))
  {
    var s := EncodeOpaque(v) + rest;
    assert s[..4] == EncodeU32(|v|);
    var (w, r) := DecodeOpaque(s).value;
    assert w == s[4..4 + |v|] == v;
    assert r == s[4 + |v| + Pad(|v|)..] == rest;
  }

  /** Decode-then-encode is not the identity: padding bytes are not checked,
      so a nonzero pad is accepted and lost. */
  lemma OpaquePaddingIgnored()
    ensures DecodeOpaque([0, 0, 0, 1, 7, 9, 9, 9]) == Some(([7], []))
    ensures EncodeOpaque([7]) != [0, 0, 0, 1, 7, 9, 9, 9]
  {
    var s: Bytes := [0, 0, 0, 1, 7, 9, 9, 9];
    assert WordAt(s) == 1;
    assert DecodeU32(s) == Some((1, [7, 9, 9, 9]));
    assert [7, 9, 9, 9][..1] == [7];
    assert [7, 9, 9, 9][4..] == [];
    assert EncodeOpaque([7])[5] == 0;
  }

  /** `XdrString`: a string is carried as the opaque encoding of its bytes. */
  datatype XdrString = XdrString(bytes: Opaque)

  function EncodeString(s: XdrString): (r: Bytes)
    ensures |r| == 4 + |s.bytes| + Pad(|s.bytes|)
    ensures WordAt(r) == |s.bytes| && r[4..4 + |s.bytes|] == s.bytes
    ensures forall i | 4 + |s.bytes| <= i < |r| :: r[i] == 0
  {
    EncodeOpaque(s.bytes)
  }

  /** A string decodes exactly where opaque data does, to the same bytes and
      the same remaining input. */
  function DecodeString(s: Bytes): (r: Decoded<XdrString>)
    ensures r.Some? <==> DecodeOpaque(s).Some?
    ensures r.Some? ==> r.value.0.bytes == DecodeOpaque(s).value.0 && r.value.1 == DecodeOpaque(s).value.1
  {
    var (v, rest) :- DecodeOpaque(s);
    Some((XdrString(v), rest))
  }

  lemma StringRoundTrip(str: XdrString, rest: Bytes)
    ensures |EncodeString(str)| == 4 + |str.bytes| + Pad(|str.bytes|)
    ensures DecodeString(EncodeString(str) + rest) == Some((str, rest))
  {
    OpaqueRoundTrip(str.bytes, rest);
  }

  // ------------------------------------------------------------------
  // Variable-length arrays of unsigned words
  // ------------------------------------------------------------------

  /** The elements of an array, each as its four-byte encoding, with no count. */
  function EncodeU32List(ws: seq<u32>): (r: Bytes)
    ensures |r| == 4 * |ws|
    ensures forall i | 0 <= i < |ws| :: WordAt(r[4 * i..]) == ws[i]
  {
    if |ws| == 0 then []
    else
      var r := EncodeU32(ws[0]) + EncodeU32List(ws[1..]);
      assert forall i | 1 <= i < |ws| :: r[4 * i..] == EncodeU32List(ws[1..])[4 * (i - 1)..];
      r
  }

  lemma EncodeU32ListCons(w: u32, ws: seq<u32>)
    ensures EncodeU32List([w] + ws) == EncodeU32(w) + EncodeU32List(ws)
  {
    assert ([w] + ws)[1..] == ws;
  }

  /** `Vec<u32>` serialisation: the count, then every element, with no padding. */
  function EncodeU32Array(ws: U32Array): (r: Bytes)
    ensures |r| == 4 + 4 * |ws| && WordAt(r) == |ws|
    ensures forall i | 0 <= i < |ws| :: WordAt(r[4 + 4 * i..]) == ws[i]
  {
    var r := EncodeU32(|ws|) + EncodeU32List(ws);
    assert forall i | 0 <= i < |ws| :: r[4 + 4 * i..] == EncodeU32List(ws)[4 * i..];
    r
  }

  /** Reads `n` consecutive words. */
  function DecodeU32List(s: Bytes, n: nat): (r: Decoded<seq<u32>>)
    ensures r.Some? <==> 4 * n <= |s|
    ensures r.Some? ==> |r.value.0| == n && s == EncodeU32List(r.value.0) + r.value.1
  {
    if n == 0 then Some(([], s))
    else
      var (w, rest) :- DecodeU32(s);
      var (ws, rest') :- DecodeU32List(rest, n - 1);
      EncodeU32ListCons(w, ws);
      Some(([w] + ws, rest'))
  }

  /** `Vec<u32>` deserialisation: the count, then that many words. */
  function DecodeU32Array(s: Bytes): (r: Decoded<U32Array>)
    ensures r.Some? <==> |s| >= 4 && 4 + 4 * WordAt(s) <= |s|
    ensures r.Some? ==> s == EncodeU32Array(r.value.0) + r.value.1
  {
    var (n, rest) :- DecodeU32(s);
    var (ws, rest') :- DecodeU32List(rest, n);
    Some((ws, rest'))
  }

  /** A non-empty word list followed by more bytes: the first word, then the rest. */
  lemma U32ListShape(ws: seq<u32>, rest: Bytes)
    requires |ws| > 0
    ensures EncodeU32List(ws) + rest == EncodeU32(ws[0]) + (EncodeU32List(ws[1..]) + rest)
  {
    assert EncodeU32List(ws) == EncodeU32(ws[0]) + EncodeU32List(ws[1..]);
    ConcatAssoc(EncodeU32(ws[0]), EncodeU32List(ws[1..]), rest);
  }

  lemma {:induction false} U32ListRoundTrip(ws: seq<u32>, rest: Bytes)
    ensures DecodeU32List(EncodeU32List(ws) + rest, |ws|) == Some((ws, rest))
  {
    if |ws| > 0 {
      var tail := EncodeU32List(ws[1..]) + rest;
      U32ListShape(ws, rest);
      U32RoundTrip(ws[0], tail);
      U32ListRoundTrip(ws[1..], rest);
      assert [ws[0]] + ws[1..] == ws;
    } else {
      assert EncodeU32List(ws) + rest == rest;
    }
  }

  lemma U32ArrayRoundTrip(ws: U32Array, rest: Bytes)
    ensures DecodeU32Array(EncodeU32Array(ws) + rest) == Some((ws, rest))
  {
    U32RoundTrip(|ws|, EncodeU32List(ws) + rest);
    assert EncodeU32Array(ws) + rest == EncodeU32(|ws|) + (EncodeU32List(ws) + rest);
    U32ListRoundTrip(ws, rest);
  }

  // ------------------------------------------------------------------
  // Whole-buffer helpers and fattr4
  // ------------------------------------------------------------------

  /** `deserialize_from_slice::<Vec<u8>>`: decodes from the start of `buf` and
      ignores whatever follows. */
  function OpaqueFromSlice(buf: Bytes): (r: Option<Opaque>)
    ensures r.Some? <==> |buf| >= 4 && 4 + WordAt(buf) + Pad(WordAt(buf)) <= |buf|
    ensures r.Some? ==> |r.value| == WordAt(buf) && r.value == buf[4..4 + WordAt(buf)]
  {
    var (v, _) :- DecodeOpaque(buf);
    Some(v)
  }

  /** `deserialize_from_slice::<Vec<u32>>`. */
  function U32ArrayFromSlice(buf: Bytes): (r: Option<U32Array>)
    ensures r.Some? <==> |buf| >= 4 && 4 + 4 * WordAt(buf) <= |buf|
    ensures r.Some? ==> |r.value| == WordAt(buf)
    ensures r.Some? ==> forall i | 0 <= i < |r.value| :: WordAt(buf[4 + 4 * i..]) == r.value[i]
  {
    var (ws, rest) :- DecodeU32Array(buf);
    WordsOfPrefix(EncodeU32Array(ws), rest);
    Some(ws)
  }

  /** Reading a word inside a prefix reads the same word in the whole. */
  lemma WordsOfPrefix(a: Bytes, b: Bytes)
    ensures forall k | 0 <= k && k + 4 <= |a| :: WordAt((a + b)[k..]) == WordAt(a[k..])
  {
    forall k | 0 <= k && k + 4 <= |a|
      ensures WordAt((a + b)[k..]) == WordAt(a[k..])
    {
      assert (a + b)[k..][..4] == a[k..][..4];
    }
  }

  /** A buffer produced by `serialize_to_vec` reads back to the value serialised,
      whatever trails it. */
  lemma FromSliceRoundTrip(v: Opaque, ws: U32Array, trailer: Bytes)
    ensures OpaqueFromSlice(EncodeOpaque(v) + trailer) == Some(v)
    ensures U32ArrayFromSlice(EncodeU32Array(ws) + trailer) == Some(ws)
  {
    OpaqueRoundTrip(v, trailer);
    U32ArrayRoundTrip(ws, trailer);
  }

  /** `encode_fattr4`: the attribute mask as a word array followed by the
      pre-encoded attribute values as one opaque field. */
  function EncodeFattr4(mask: U32Array, vals: Opaque): (r: Bytes)
    ensures r == EncodeU32Array(mask) + EncodeOpaque(vals)
  {
    EncodeU32Array(mask) + EncodeU32(|vals|) + vals + Zeros(Pad(|vals|))
  }
}
