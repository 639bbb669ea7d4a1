/** The NFSv4 protocol types the server decodes and encodes: well-known
    numbers, attribute bitmaps (bitmap4), the COMPOUND argument structure with
    its eagerly decoded operands, and the COMPOUND result header. */
module Nfs4 {
  import opened Wrappers
  import opened Xdr

  const NFS4_PROGRAM: u32 := 100003
  const NFS4_VERSION: u32 := 4
  const NFS4_OK: u32 := 0
  const NFS4ERR_NOTSUPP: u32 := 10004
  /** Sent back, in place of a COMPOUND result, for a wrong program or version. */
  const NFS4ERR_BADTYPE: u32 := 10007
  const NFS4ERR_NOFILEHANDLE: u32 := 10020

  const NF4REG: u32 := 1
  const NF4DIR: u32 := 2
  const FH4_PERSISTENT: u32 := 0

  const FATTR4_SUPPORTED_ATTRS: u32 := 0
  const FATTR4_TYPE: u32 := 1
  const FATTR4_FH_EXPIRE_TYPE: u32 := 2
  const FATTR4_CHANGE: u32 := 3
  const FATTR4_SIZE: u32 := 4
  const FATTR4_FILEHANDLE: u32 := 19

  /** Procedure numbers of the NFSv4 program. */
  const PROC_NULL: u32 := 0
  const PROC_COMPOUND: u32 := 1

  /** The operation numbers the server gives meaning to. */
  const OP_GETATTR: u32 := 9
  const OP_GETFH: u32 := 10
  const OP_LOOKUP: u32 := 15
  const OP_PUTFH: u32 := 22
  const OP_PUTROOTFH: u32 := 24
  const OP_SETATTR: u32 := 34

  // ------------------------------------------------------------------
  // Bits of a word
  // ------------------------------------------------------------------

  function Pow2(k: nat): (p: nat)
    ensures p >= 1
  {
    if k == 0 then 1 else 2 * Pow2(k - 1)
  }

  /** Bit `k` of `w`, that is `w & (1 << k) != 0`. */
  function Bit(w: nat, k: nat): bool {
    if k == 0 then w % 2 == 1 else Bit(w / 2, k - 1)
  }

  /** `w | (1 << k)`: sets bit `k` and no other. */
  function SetBit(w: nat, k: nat): (r: nat)
    ensures forall j: nat :: Bit(r, j) <==> Bit(w, j) || j == k
  {
    if k == 0 then
      if w % 2 == 1 then w else w + 1
    else
      var r := 2 * SetBit(w / 2, k - 1) + w % 2;
      assert r / 2 == SetBit(w / 2, k - 1) && r % 2 == w % 2;
      r
  }

  lemma {:induction false} SetBitBound(w: nat, k: nat, n: nat)
    requires w < Pow2(n) && k < n
    ensures SetBit(w, k) < Pow2(n)
  {
    var h := Pow2(n - 1);
    assert Pow2(n) == 2 * h;
    assert w == 2 * (w / 2) + w % 2 && w / 2 < h;
    if k > 0 {
      SetBitBound(w / 2, k - 1, n - 1);
      assert SetBit(w, k) == 2 * SetBit(w / 2, k - 1) + w % 2;
    }
  }

  lemma {:induction false} ZeroHasNoBits(k: nat)
    ensures !Bit(0, k)
  {
    if k > 0 {
      ZeroHasNoBits(k - 1);
    }
  }

  /** Two words below `2^n` that agree on every bit below `n` are equal. */
  lemma {:induction false} BitsDetermineWord(a: nat, b: nat, n: nat)
    requires a < Pow2(n) && b < Pow2(n)
    requires forall k: nat | k < n :: Bit(a, k) == Bit(b, k)
    ensures a == b
  {
    if n > 0 {
      assert Bit(a, 0) == Bit(b, 0);
      forall k: nat | k < n - 1
        ensures Bit(a / 2, k) == Bit(b / 2, k)
      {
        assert Bit(a, k + 1) == Bit(b, k + 1);
      }
      BitsDetermineWord(a / 2, b / 2, n - 1);
    }
  }

  lemma Pow2Of32()
    ensures Pow2(32) == TWO_32
  {
    assert Pow2(8) == 0x100;
    assert Pow2(16) == 0x1_0000;
    assert Pow2(24) == 0x100_0000;
  }

  // ------------------------------------------------------------------
  // Attribute bitmaps
  // ------------------------------------------------------------------

  /** Attribute `b` is marked in `bm`: word `b / 32` exists and has bit `b % 32`
      set. A word beyond the end of the array counts as all zero. */
  predicate BitmapHas(bm: seq<u32>, b: u32)
    ensures BitmapHas(bm, b) ==> b / 32 < |bm|
  {
    b / 32 < |bm| && Bit(bm[b / 32], b % 32)
  }

  function MaxOf(bits: seq<u32>): (m: u32)
    ensures forall i | 0 <= i < |bits| :: bits[i] <= m
    ensures |bits| == 0 ==> m == 0
    ensures |bits| > 0 ==> m in bits
  {
    if |bits| == 0 then 0
    else if bits[0] >= MaxOf(bits[1..]) then bits[0]
    else MaxOf(bits[1..])
  }

  /** Bitmaps of equal length that mark the same attributes are equal. The
      length bound keeps every bit position a `u32`. */
  lemma BitmapExtensional(x: seq<u32>, y: seq<u32>)
    requires |x| == |y| <= 0x800_0000
    requires forall c: u32 :: BitmapHas(x, c) <==> BitmapHas(y, c)
    ensures x == y
  {
    Pow2Of32();
    forall i | 0 <= i < |x|
      ensures x[i] == y[i]
    {
      forall k: nat | k < 32
        ensures Bit(x[i], k) == Bit(y[i], k)
      {
        var c: u32 := 32 * i + k;
        assert c / 32 == i && c % 32 == k;
        assert BitmapHas(x, c) <==> BitmapHas(y, c);
      }
      BitsDetermineWord(x[i], y[i], 32);
    }
  }

  /** `v[b / 32] |= 1 << (b % 32)`. */
  function SetBitmapBit(v: seq<u32>, b: u32): (r: seq<u32>)
    requires b / 32 < |v|
    ensures |r| == |v|
    ensures forall c: u32 :: BitmapHas(r, c) <==> BitmapHas(v, c) || c == b
  {
    var i := b / 32;
    Pow2Of32();
    SetBitBound(v[i], b % 32, 32);
    var r := v[i := SetBit(v[i], b % 32)];
    assert forall c: u32 | c / 32 == i && c % 32 == b % 32 :: c == b;
    r
  }

  /** Sets the bit of every element of `bits`, in order. */
  function SetBitmapBits(v: seq<u32>, bits: seq<u32>): (r: seq<u32>)
    requires forall i | 0 <= i < |bits| :: bits[i] / 32 < |v|
    ensures |r| == |v|
    ensures forall c: u32 :: BitmapHas(r, c) <==> BitmapHas(v, c) || c in bits
    decreases |bits|
  {
    if |bits| == 0 then v
    else SetBitmapBits(SetBitmapBit(v, bits[0]), bits[1..])
  }

  /** `bitmap4_with`: the shortest bitmap that can hold the largest listed bit
      (one zero word when the list is empty), with exactly the listed bits set. */
  function BitmapWith(bits: seq<u32>): (r: U32Array)
    ensures |r| == MaxOf(bits) / 32 + 1
    ensures forall c: u32 :: BitmapHas(r, c) <==> c in bits
  {
    var zeros: seq<u32> := seq(MaxOf(bits) / 32 + 1, _ => 0);
    assert forall c: u32 :: !BitmapHas(zeros, c) by {
      forall c: u32 | c / 32 < |zeros| {
        ZeroHasNoBits(c % 32);
      }
    }
    SetBitmapBits(zeros, bits)
  }

  // ------------------------------------------------------------------
  // COMPOUND arguments
  // ------------------------------------------------------------------

  /** One operation of a COMPOUND: its number and its operand, re-encoded. */
  datatype Op4 = Op4(opcode: u32, opdata: Bytes)

  datatype Compound4Args = Compound4Args(tag: XdrString, minorVersion: u32, operations: seq<Op4>)

  /** The operations whose operand is decoded while the arguments are parsed. */
  predicate HasOperand(opcode: u32) {
    opcode == OP_GETATTR || opcode == OP_PUTFH || opcode == OP_LOOKUP || opcode == OP_SETATTR
  }

  /** Reads one operation's operand and re-serialises it as the operation's
      `opdata`: a bitmap for GETATTR, an opaque handle for PUTFH, a name for
      LOOKUP, a bitmap and opaque attribute values for SETATTR. Any other
      operation reads nothing and gets an empty `opdata`. */
  function DecodeOperand(opcode: u32, s: Bytes): (r: Decoded<Bytes>)
    ensures !HasOperand(opcode) ==> r == Some(([], s))
    ensures r.Some? ==> |r.value.1| <= |s|
    ensures opcode == OP_GETATTR && r.Some? ==> s == r.value.0 + r.value.1
  {
    if opcode == OP_GETATTR then
      var (bm, rest) :- DecodeU32Array(s);
      Some((EncodeU32Array(bm), rest))
    else if opcode == OP_PUTFH then
      var (fh, rest) :- DecodeOpaque(s);
      Some((EncodeOpaque(fh), rest))
    else if opcode == OP_LOOKUP then
      var (name, rest) :- DecodeString(s);
      Some((EncodeString(name), rest))
    else if opcode == OP_SETATTR then
      var (bm, s1) :- DecodeU32Array(s);
      var (attrs, rest) :- DecodeOpaque(s1);
      Some((EncodeU32Array(bm) + EncodeOpaque(attrs), rest))
    else
      Some(([], s))
  }

  /** Reads `n` operations in wire order. */
  function DecodeOps(s: Bytes, n: nat): (r: Decoded<seq<Op4>>)
    ensures r.Some? ==> |r.value.0| == n
    ensures r.Some? ==> forall i | 0 <= i < n :: !HasOperand(r.value.0[i].opcode) ==> r.value.0[i].opdata == []
    decreases n
  {
    if n == 0 then Some(([], s))
    else
      var (opcode, s1) :- DecodeU32(s);
      var (opdata, s2) :- DecodeOperand(opcode, s1);
      var (ops, s3) :- DecodeOps(s2, n - 1);
      Some(([Op4(opcode, opdata)] + ops, s3))
  }

  /** A recognised opcode whose operand is cut short makes the whole list fail. */
  lemma TruncatedOperandFails(s: Bytes, n: nat)
    requires n > 0 && |s| >= 4
    requires DecodeOperand(WordAt(s), s[4..]).None?
    ensures HasOperand(WordAt(s))
    ensures DecodeOps(s, n).None?
  {
    assert DecodeU32(s) == Some((WordAt(s), s[4..]));
  }

  /** Reading one operation fails when reading the operations after it fails. */
  lemma DecodeOpsNextFails(s: Bytes, m: nat, opcode: u32, s1: Bytes, opdata: Bytes, s2: Bytes)
    requires DecodeU32(s) == Some((opcode, s1)) && DecodeOperand(opcode, s1) == Some((opdata, s2))
    requires DecodeOps(s2, m).None?
    ensures DecodeOps(s, m + 1).None?
  {
  }

  /** The same step with the count of the whole list named. */
  lemma DecodeOpsStepFails(s: Bytes, n: nat, m: nat, opcode: u32, s1: Bytes, opdata: Bytes, s2: Bytes)
    requires n == m + 1
    requires DecodeU32(s) == Some((opcode, s1)) && DecodeOperand(opcode, s1) == Some((opdata, s2))
    requires DecodeOps(s2, m).None?
    ensures DecodeOps(s, n).None?
  {
    DecodeOpsNextFails(s, m, opcode, s1, opdata, s2);
  }

  /** A truncated operand fails the whole list wherever it stands: after any
      number of well-formed operations, the list still does not decode. */
  lemma {:induction false} TruncatedAfterPrefix(pre: seq<OpArgs>, s: Bytes, k: nat)
    requires forall i | 0 <= i < |pre| :: pre[i].Valid()
    requires |pre| < k && |s| >= 4
    requires DecodeOperand(WordAt(s), s[4..]).None?
    ensures DecodeOps(EncodeOpArgsList(pre) + s, k).None?
  {
    if |pre| == 0 {
      assert EncodeOpArgsList(pre) + s == s;
      TruncatedOperandFails(s, k);
    } else {
      var a := pre[0];
      var tail := EncodeOpArgsList(pre[1..]) + s;
      var m := k - 1;
      TruncatedAfterPrefix(pre[1..], s, m);
      OpsShape(pre, s);
      U32RoundTrip(a.Opcode(), a.Operand() + tail);
      OperandRoundTrip(a, tail);
      DecodeOpsStepFails(EncodeOpArgsList(pre) + s, k, m, a.Opcode(), a.Operand() + tail, a.Operand(), tail);
    }
  }

  /** `Compound4args` deserialisation: tag, minor version, operation count, then
      that many operations. */
  function DecodeCompoundArgs(s: Bytes): (r: Decoded<Compound4Args>)
    ensures r.Some? ==> |r.value.0.operations| < TWO_32
  {
    var (tag, s1) :- DecodeString(s);
    var (minorVersion, s2) :- DecodeU32(s1);
    var (numops, s3) :- DecodeU32(s2);
    var (ops, s4) :- DecodeOps(s3, numops);
    Some((Compound4Args(tag, minorVersion, ops), s4))
  }

  // ------------------------------------------------------------------
  // COMPOUND arguments as a client writes them
  // ------------------------------------------------------------------

  /** One operation as a client sends it. `NoOperand` stands for an opcode sent
      on its own, such as PUTROOTFH or GETFH. */
  datatype OpArgs =
    | GetattrArgs(attrRequest: U32Array)
    | PutfhArgs(fh: Opaque)
    | LookupArgs(name: XdrString)
    | SetattrArgs(attrMask: U32Array, attrVals: Opaque)
    | NoOperand(code: u32)
  {
    predicate Valid() {
      NoOperand? ==> !HasOperand(code)
    }

    function Opcode(): u32 {
      match this
      case GetattrArgs(_) => OP_GETATTR
      case PutfhArgs(_) => OP_PUTFH
      case LookupArgs(_) => OP_LOOKUP
      case SetattrArgs(_, _) => OP_SETATTR
      case NoOperand(code) => code
    }

    function Operand(): Bytes {
      match this
      case GetattrArgs(bm) => EncodeU32Array(bm)
      case PutfhArgs(fh) => EncodeOpaque(fh)
      case LookupArgs(name) => EncodeString(name)
      case SetattrArgs(bm, vals) => EncodeU32Array(bm) + EncodeOpaque(vals)
      case NoOperand(_) => []
    }
  }

  function EncodeOpArgsList(ops: seq<OpArgs>): Bytes {
    if |ops| == 0 then []
    else EncodeU32(ops[0].Opcode()) + ops[0].Operand() + EncodeOpArgsList(ops[1..])
  }

  /** The arguments of a COMPOUND call as a client writes them. */
  function EncodeCompoundCall(tag: XdrString, minorVersion: u32, ops: seq<OpArgs>): Bytes
    requires |ops| < TWO_32
  {
    EncodeString(tag) + EncodeU32(minorVersion) + EncodeU32(|ops|) + EncodeOpArgsList(ops)
  }

  /** The operation the server should record for `a`: its opcode with the
      operand bytes exactly as sent. */
  function ExpectedOp(a: OpArgs): Op4 {
    Op4(a.Opcode(), a.Operand())
  }

  function ExpectedOps(ops: seq<OpArgs>): (r: seq<Op4>)
    ensures |r| == |ops|
    ensures forall i | 0 <= i < |ops| :: r[i] == ExpectedOp(ops[i])
  {
    if |ops| == 0 then [] else [ExpectedOp(ops[0])] + ExpectedOps(ops[1..])
  }

  /** Every operand decodes, and its `opdata` is the operand the client sent:
      for GETATTR the bitmap, for PUTFH the handle, for LOOKUP the name, for
      SETATTR the bitmap followed by the opaque attribute values. */
  lemma OperandRoundTrip(a: OpArgs, rest: Bytes)
    requires a.Valid()
    ensures DecodeOperand(a.Opcode(), a.Operand() + rest) == Some((a.Operand(), rest))
  {
    match a
    case GetattrArgs(bm) => GetattrOperandRoundTrip(bm, rest);
    case PutfhArgs(fh) => PutfhOperandRoundTrip(fh, rest);
    case LookupArgs(name) => LookupOperandRoundTrip(name, rest);
    case SetattrArgs(bm, vals) => SetattrOperandRoundTrip(bm, vals, rest);
    case NoOperand(_) => assert a.Operand() + rest == rest;
  }

  lemma GetattrOperandRoundTrip(bm: U32Array, rest: Bytes)
    ensures DecodeOperand(OP_GETATTR, EncodeU32Array(bm) + rest) == Some((EncodeU32Array(bm), rest))
  {
    U32ArrayRoundTrip(bm, rest);
  }

  lemma PutfhOperandRoundTrip(fh: Opaque, rest: Bytes)
    ensures DecodeOperand(OP_PUTFH, EncodeOpaque(fh) + rest) == Some((EncodeOpaque(fh), rest))
  {
    OpaqueRoundTrip(fh, rest);
  }

  lemma LookupOperandRoundTrip(name: XdrString, rest: Bytes)
    ensures DecodeOperand(OP_LOOKUP, EncodeString(name) + rest) == Some((EncodeString(name), rest))
  {
    StringRoundTrip(name, rest);
  }

  lemma SetattrOperandRoundTrip(bm: U32Array, vals: Opaque, rest: Bytes)
    ensures DecodeOperand(OP_SETATTR, EncodeU32Array(bm) + EncodeOpaque(vals) + rest)
         == Some((EncodeU32Array(bm) + EncodeOpaque(vals), rest))
  {
    var t := EncodeOpaque(vals) + rest;
    SetattrShape(bm, vals, rest);
    U32ArrayRoundTrip(bm, t);
    OpaqueRoundTrip(vals, rest);
  }

  /** A SETATTR operand followed by more bytes, one part at a time. */
  lemma SetattrShape(bm: U32Array, vals: Opaque, rest: Bytes)
    ensures EncodeU32Array(bm) + EncodeOpaque(vals) + rest == EncodeU32Array(bm) + (EncodeOpaque(vals) + rest)
  {
  }

  /** An operation list followed by more bytes: the first operation's opcode,
      its operand, then the other operations. */
  lemma OpsShape(ops: seq<OpArgs>, rest: Bytes)
    requires |ops| > 0
    ensures EncodeOpArgsList(ops) + rest
         == EncodeU32(ops[0].Opcode()) + (ops[0].Operand() + (EncodeOpArgsList(ops[1..]) + rest))
  {
  }

  lemma {:induction false} OpsRoundTrip(ops: seq<OpArgs>, rest: Bytes)
    requires forall i | 0 <= i < |ops| :: ops[i].Valid()
    ensures DecodeOps(EncodeOpArgsList(ops) + rest, |ops|) == Some((ExpectedOps(ops), rest))
  {
    if |ops| == 0 {
      assert EncodeOpArgsList(ops) + rest == rest;
    } else {
      var a := ops[0];
      var tail := EncodeOpArgsList(ops[1..]) + rest;
      OpsShape(ops, rest);
      U32RoundTrip(a.Opcode(), a.Operand() + tail);
      OperandRoundTrip(a, tail);
      OpsRoundTrip(ops[1..], rest);
    }
  }

  /** A COMPOUND call followed by more bytes, one part at a time. */
  lemma CompoundCallShape(tag: XdrString, minorVersion: u32, ops: seq<OpArgs>, rest: Bytes)
    requires |ops| < TWO_32
    ensures EncodeCompoundCall(tag, minorVersion, ops) + rest
         == EncodeString(tag) + (EncodeU32(minorVersion) + (EncodeU32(|ops|) + (EncodeOpArgsList(ops) + rest)))
  {
    var a, b, c, d := EncodeString(tag), EncodeU32(minorVersion), EncodeU32(|ops|), EncodeOpArgsList(ops);
    ConcatAssoc(a + b + c, d, rest);
    ConcatAssoc(a + b, c, d + rest);
    ConcatAssoc(a, b, c + (d + rest));
  }

  lemma CompoundArgsRoundTrip(tag: XdrString, minorVersion: u32, ops: seq<OpArgs>, rest: Bytes)
    requires |ops| < TWO_32
    requires forall i | 0 <= i < |ops| :: ops[i].Valid()
    ensures DecodeCompoundArgs(EncodeCompoundCall(tag, minorVersion, ops) + rest)
         == Some((Compound4Args(tag, minorVersion, ExpectedOps(ops)), rest))
  {
    var t3 := EncodeOpArgsList(ops) + rest;
    var t2 := EncodeU32(|ops|) + t3;
    var t1 := EncodeU32(minorVersion) + t2;
    CompoundCallShape(tag, minorVersion, ops, rest);
    StringRoundTrip(tag, t1);
    U32RoundTrip(minorVersion, t2);
    U32RoundTrip(|ops|, t3);
    OpsRoundTrip(ops, rest);
    CompoundArgsSteps(EncodeCompoundCall(tag, minorVersion, ops) + rest, t1, t2, t3, tag, minorVersion, |ops|, ExpectedOps(ops), rest);
  }

  /** The arguments decode from what the four field decoders read in turn. */
  lemma CompoundArgsSteps(s: Bytes, t1: Bytes, t2: Bytes, t3: Bytes, tag: XdrString, minorVersion: u32, n: u32,
                          ops: seq<Op4>, rest: Bytes)
    requires DecodeString(s) == Some((tag, t1))
    requires DecodeU32(t1) == Some((minorVersion, t2))
    requires DecodeU32(t2) == Some((n, t3))
    requires DecodeOps(t3, n) == Some((ops, rest))
    ensures DecodeCompoundArgs(s) == Some((Compound4Args(tag, minorVersion, ops), rest))
  {
  }

  /** The arguments fail to decode when the operation list after the count fails. */
  lemma CompoundArgsFailSteps(s: Bytes, t1: Bytes, t2: Bytes, t3: Bytes, tag: XdrString, minorVersion: u32, n: u32)
    requires DecodeString(s) == Some((tag, t1))
    requires DecodeU32(t1) == Some((minorVersion, t2))
    requires DecodeU32(t2) == Some((n, t3))
    requires DecodeOps(t3, n).None?
    ensures DecodeCompoundArgs(s).None?
  {
  }

  /** Arguments whose operation list does not decode do not decode either,
      whatever the tag and minor version. */
  lemma OpsFailCompoundFails(tag: XdrString, minorVersion: u32, n: u32, t3: Bytes)
    requires DecodeOps(t3, n).None?
    ensures DecodeCompoundArgs(EncodeString(tag) + (EncodeU32(minorVersion) + (EncodeU32(n) + t3))).None?
  {
    var t2 := EncodeU32(n) + t3;
    var t1 := EncodeU32(minorVersion) + t2;
    StringRoundTrip(tag, t1);
    U32RoundTrip(minorVersion, t2);
    U32RoundTrip(n, t3);
    CompoundArgsFailSteps(EncodeString(tag) + t1, t1, t2, t3, tag, minorVersion, n);
  }

  /** A COMPOUND whose count announces `k` operations, of which the first
      `|pre|` are well formed and the next has a truncated operand, does not
      decode at all. */
  lemma TruncatedCompoundFails(tag: XdrString, minorVersion: u32, k: u32, pre: seq<OpArgs>, s: Bytes)
    requires |pre| < k
    requires forall i | 0 <= i < |pre| :: pre[i].Valid()
    requires |s| >= 4 && DecodeOperand(WordAt(s), s[4..]).None?
    ensures DecodeCompoundArgs(EncodeString(tag) + (EncodeU32(minorVersion) + (EncodeU32(k) + (EncodeOpArgsList(pre) + s)))).None?
  {
    TruncatedAfterPrefix(pre, s, k);
    OpsFailCompoundFails(tag, minorVersion, k, EncodeOpArgsList(pre) + s);
  }

  /** The server reads the operands back out of `opdata` with
      `deserialize_from_slice`: a GETATTR yields the requested bitmap and a
      PUTFH the handle that was sent. */
  lemma OpdataReadsBack(bm: U32Array, fh: Opaque)
    ensures U32ArrayFromSlice(ExpectedOp(GetattrArgs(bm)).opdata) == Some(bm)
    ensures OpaqueFromSlice(ExpectedOp(PutfhArgs(fh)).opdata) == Some(fh)
  {
    FromSliceRoundTrip(fh, bm, []);
    assert EncodeU32Array(bm) + [] == EncodeU32Array(bm);
    assert EncodeOpaque(fh) + [] == EncodeOpaque(fh);
  }

  // ------------------------------------------------------------------
  // COMPOUND result header
  // ------------------------------------------------------------------

  datatype Compound4Res = Compound4Res(status: u32, tag: XdrString)

  /** `Compound4res` serialisation: the status word followed by the tag. */
  function EncodeCompoundRes(res: Compound4Res): (r: Bytes)
    ensures |r| == 8 + |res.tag.bytes| + Pad(|res.tag.bytes|) && WordAt(r) == res.status
    ensures DecodeString(r[4..]) == Some((res.tag, []))
    ensures forall i | 8 + |res.tag.bytes| <= i < |r| :: r[i] == 0
  {
    var r := EncodeU32(res.status) + EncodeString(res.tag);
    StringRoundTrip(res.tag, []);
    assert r[4..] == EncodeString(res.tag) + [];
    r
  }
}
