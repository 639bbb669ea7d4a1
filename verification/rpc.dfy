/** ONC RPC over a stream transport (RFC 5531): the record-marking header of
    section 11 and the call and reply message headers of section 9, as far as
    this server uses them. Credentials and verifiers are skipped, never checked. */
module Rpc {
  import opened Wrappers
  import opened Xdr

  // ------------------------------------------------------------------
  // Record marking
  // ------------------------------------------------------------------

  /** The record-marking word for an `n`-byte payload: the last-fragment bit
      OR-ed into the length truncated to 32 bits, `(1 << 31) | (n as u32)`. */
  function RecordMark(n: nat): (h: u32)
    ensures h >= TWO_31
    ensures h % TWO_31 == n % TWO_31
  {
    var len := n % TWO_32;
    if len >= TWO_31 then len else TWO_31 + len
  }

  /** `write_record_marked`: one fragment, flagged as the last one. */
  function WriteRecordMarked(p: Bytes): (r: Bytes)
    ensures |r| == 4 + |p| && r[4..] == p
    ensures r[0] >= 0x80
    ensures |p| < TWO_31 ==> WordAt(r) % TWO_31 == |p|
  {
    EncodeU32(RecordMark(|p|)) + p
  }

  /** `read_record_marked`: the length is the low 31 bits of the header; the
      last-fragment bit is read and ignored. Fails when the input ends before
      the header or before the declared number of bytes. */
  function ReadRecordMarked(s: Bytes): (r: Decoded<Bytes>)
    ensures r.Some? <==> |s| >= 4 && 4 + WordAt(s) % TWO_31 <= |s|
    ensures r.Some? ==>
      var (p, rest) := r.value;
      |p| == WordAt(s) % TWO_31 && s == s[..4] + p + rest
  {
    var (hdr, rest) :- DecodeU32(s);
    var len := hdr % TWO_31;
    if |rest| < len then None
    else
      assert rest == rest[..len] + rest[len..];
      Some((rest[..len], rest[len..]))
  }

  /** Any header whose low 31 bits give the payload length frames that
      payload, whether or not the last-fragment bit is set. */
  lemma ReadIgnoresLastFragmentBit(hdr: u32, p: Bytes, rest: Bytes)
    requires hdr % TWO_31 == |p|
    ensures ReadRecordMarked(EncodeU32(hdr) + p + rest) == Some((p, rest))
  {
    U32RoundTrip(hdr, p + rest);
    assert EncodeU32(hdr) + p + rest == EncodeU32(hdr) + (p + rest);
    assert (p + rest)[..|p|] == p;
    assert (p + rest)[|p|..] == rest;
  }

  lemma RecordRoundTrip(p: Bytes, rest: Bytes)
    requires |p| < TWO_31
    ensures ReadRecordMarked(WriteRecordMarked(p) + rest) == Some((p, rest))
  {
    ReadIgnoresLastFragmentBit(RecordMark(|p|), p, rest);
  }

  /** A payload of exactly 2^31 bytes sets the header's top bit by its own
      length, so the low 31 bits read back as zero: the reader sees an empty
      record and takes the payload for the start of the next one. */
  lemma RecordLengthOverflow(p: Bytes, rest: Bytes)
    requires |p| == TWO_31
    ensures ReadRecordMarked(WriteRecordMarked(p) + rest) == Some(([], p + rest))
  {
    assert RecordMark(|p|) % TWO_31 == 0;
    ReadIgnoresLastFragmentBit(RecordMark(|p|), [], p + rest);
    assert WriteRecordMarked(p) + rest == EncodeU32(RecordMark(|p|)) + [] + (p + rest);
  }

  // ------------------------------------------------------------------
  // Message type
  // ------------------------------------------------------------------

  datatype MsgType = Call | Reply

  function MsgTypeCode(m: MsgType): u32 {
    match m
    case Call => 0
    case Reply => 1
  }

  function EncodeMsgType(m: MsgType): (r: Bytes)
    ensures |r| == 4 && WordAt(r) == MsgTypeCode(m)
  {
    EncodeU32(MsgTypeCode(m))
  }

  /** 0 reads as CALL, 1 as REPLY, and every other word is an error. */
  function DecodeMsgType(s: Bytes): (r: Decoded<MsgType>)
    ensures r.Some? <==> |s| >= 4 && WordAt(s) <= 1
    ensures r.Some? ==> MsgTypeCode(r.value.0) == WordAt(s) && r.value.1 == s[4..]
  {
    var (v, rest) :- DecodeU32(s);
    if v == 0 then Some((Call, rest))
    else if v == 1 then Some((Reply, rest))
    else None
  }

  lemma MsgTypeRoundTrip(m: MsgType, rest: Bytes)
    ensures DecodeMsgType(EncodeMsgType(m) + rest) == Some((m, rest))
  {
    U32RoundTrip(MsgTypeCode(m), rest);
  }

  // ------------------------------------------------------------------
  // Call header
  // ------------------------------------------------------------------

  datatype CallHeader = CallHeader(xid: u32, msgType: MsgType, rpcvers: u32, prog: u32, vers: u32, proc: u32)

  /** A credential or verifier: an authentication flavour and its opaque body. */
  datatype OpaqueAuth = OpaqueAuth(flavor: u32, body: Opaque)

  const AUTH_NULL: OpaqueAuth := OpaqueAuth(0, [])

  /** The six fixed words that open a call. */
  function CallFields(h: CallHeader): (r: Bytes)
    ensures |r| == 24
  {
    EncodeU32(h.xid) + EncodeMsgType(h.msgType) + EncodeU32(h.rpcvers)
      + EncodeU32(h.prog) + EncodeU32(h.vers) + EncodeU32(h.proc)
  }

  /** `RpcCallHeader` serialisation: the six fields, then an AUTH_NULL
      credential and an AUTH_NULL verifier (flavour 0, length 0 each). */
  function EncodeCallHeader(h: CallHeader): (r: Bytes)
    ensures |r| == 40 && r[..24] == CallFields(h)
    ensures forall i | 24 <= i < 40 :: r[i] == 0
  {
    CallFields(h) + EncodeU32(0) + EncodeU32(0) + EncodeU32(0) + EncodeU32(0)
  }

  /** A credential or verifier as a client writes it. */
  function EncodeAuth(a: OpaqueAuth): (r: Bytes)
    ensures |r| == 8 + |a.body| + Pad(|a.body|)
  {
    EncodeU32(a.flavor) + EncodeOpaque(a.body)
  }

  /** A call header with arbitrary credential and verifier, as a client writes it. */
  function EncodeCall(h: CallHeader, cred: OpaqueAuth, verf: OpaqueAuth): (r: Bytes)
    ensures |r| == 40 + |cred.body| + Pad(|cred.body|) + |verf.body| + Pad(|verf.body|)
    ensures r[..24] == CallFields(h)
  {
    CallFields(h) + EncodeAuth(cred) + EncodeAuth(verf)
  }

  /** The server's own encoding is the general one with null authentication. */
  lemma EncodeCallHeaderIsNullAuth(h: CallHeader)
    ensures EncodeCallHeader(h) == EncodeCall(h, AUTH_NULL, AUTH_NULL)
  {
    assert EncodeOpaque([]) == EncodeU32(0);
  }

  /** Skips `len` body bytes and their padding, failing when the input ends
      first. An empty body reads nothing. */
  function SkipBody(len: u32, s: Bytes): (r: Option<Bytes>)
    ensures r.Some? <==> len + Pad(len) <= |s|
    ensures r.Some? ==> r.value == s[len + Pad(len)..]
  {
    if len > 0 then
      if |s| < len then None
      else
        var s1 := s[len..];
        var pad := Pad(len);
        if pad > 0 && |s1| < pad then None
        else Some(s1[pad..])
    else Some(s)
  }

  /** Skips a credential or verifier: flavour, length, `length` body bytes and
      their padding, all discarded. */
  function SkipAuth(s: Bytes): (r: Option<Bytes>)
    ensures r.Some? <==> |s| >= 8 && 8 + WordAt(s[4..]) + Pad(WordAt(s[4..])) <= |s|
    ensures r.Some? ==> r.value == s[8 + WordAt(s[4..]) + Pad(WordAt(s[4..]))..]
  {
    var (_, s1) :- DecodeU32(s);
    var (len, s2) :- DecodeU32(s1);
    SkipBody(len, s2)
  }

  lemma SkipAuthConsumesAuth(a: OpaqueAuth, rest: Bytes)
    ensures SkipAuth(EncodeAuth(a) + rest) == Some(rest)
  {
    var s := EncodeAuth(a) + rest;
    assert s[4..] == EncodeOpaque(a.body) + rest;
    assert WordAt(s[4..]) == |a.body|;
  }

  /** The six fixed words of a call; a message type other than CALL or REPLY fails. */
  function DecodeCallFields(s: Bytes): (r: Decoded<CallHeader>)
    ensures r.Some? <==> |s| >= 24 && WordAt(s[4..]) <= 1
    ensures r.Some? ==> s[..24] == CallFields(r.value.0) && r.value.1 == s[24..]
  {
    var (xid, s1) :- DecodeU32(s);
    var (msgType, s2) :- DecodeMsgType(s1);
    var (rpcvers, s3) :- DecodeU32(s2);
    var (prog, s4) :- DecodeU32(s3);
    var (vers, s5) :- DecodeU32(s4);
    var (proc, s6) :- DecodeU32(s5);
    Some((CallHeader(xid, msgType, rpcvers, prog, vers, proc), s6))
  }

  /** `RpcCallHeader` deserialisation: the six fields, then the credential and
      the verifier are skipped. */
  function DecodeCallHeader(s: Bytes): (r: Decoded<CallHeader>)
    ensures r.Some? ==> |r.value.1| <= |s| - 40
    ensures DecodeCallFields(s).None? ==> r.None?
    ensures r.Some? ==> DecodeCallFields(s) == Some((r.value.0, s[24..]))
  {
    var (h, s6) :- DecodeCallFields(s);
    var s7 :- SkipAuth(s6);
    var s8 :- SkipAuth(s7);
    Some((h, s8))
  }

  /** The six fields followed by more bytes, one field at a time. */
  lemma CallFieldsShape(h: CallHeader, rest: Bytes)
    ensures CallFields(h) + rest
         == EncodeU32(h.xid) + (EncodeMsgType(h.msgType) + (EncodeU32(h.rpcvers) + (EncodeU32(h.prog)
              + (EncodeU32(h.vers) + (EncodeU32(h.proc) + rest)))))
  {
  }

  lemma CallFieldsRoundTrip(h: CallHeader, rest: Bytes)
    ensures DecodeCallFields(CallFields(h) + rest) == Some((h, rest))
  {
    var t5 := EncodeU32(h.proc) + rest;
    var t4 := EncodeU32(h.vers) + t5;
    var t3 := EncodeU32(h.prog) + t4;
    var t2 := EncodeU32(h.rpcvers) + t3;
    var t1 := EncodeMsgType(h.msgType) + t2;
    CallFieldsShape(h, rest);
    U32RoundTrip(h.xid, t1);
    MsgTypeRoundTrip(h.msgType, t2);
    U32RoundTrip(h.rpcvers, t3);
    U32RoundTrip(h.prog, t4);
    U32RoundTrip(h.vers, t5);
    U32RoundTrip(h.proc, rest);
  }

  /** A call followed by more bytes, one part at a time. */
  lemma CallShape(h: CallHeader, cred: OpaqueAuth, verf: OpaqueAuth, rest: Bytes)
    ensures EncodeCall(h, cred, verf) + rest == CallFields(h) + (EncodeAuth(cred) + (EncodeAuth(verf) + rest))
  {
  }

  /** Whatever credential and verifier the client sends, decoding recovers the
      six fields and consumes exactly the header. */
  lemma CallHeaderRoundTrip(h: CallHeader, cred: OpaqueAuth, verf: OpaqueAuth, rest: Bytes)
    ensures DecodeCallHeader(EncodeCall(h, cred, verf) + rest) == Some((h, rest))
  {
    var t2 := EncodeAuth(verf) + rest;
    var t1 := EncodeAuth(cred) + t2;
    CallShape(h, cred, verf, rest);
    CallFieldsRoundTrip(h, t1);
    SkipAuthConsumesAuth(cred, t2);
    SkipAuthConsumesAuth(verf, rest);
  }

  /** The 40-byte AUTH_NULL header the server's encoder writes decodes back. */
  lemma NullCallHeaderRoundTrip(h: CallHeader, rest: Bytes)
    ensures |EncodeCallHeader(h)| == 40
    ensures DecodeCallHeader(EncodeCallHeader(h) + rest) == Some((h, rest))
  {
    EncodeCallHeaderIsNullAuth(h);
    CallHeaderRoundTrip(h, AUTH_NULL, AUTH_NULL, rest);
  }

  // ------------------------------------------------------------------
  // Reply header
  // ------------------------------------------------------------------

  datatype ReplyHeader = ReplyHeader(
    xid: u32, msgType: MsgType, replyState: u32, verfFlavor: u32, verfLen: u32, acceptState: u32)

  /** `RpcReplyHeader::success`: MSG_ACCEPTED, AUTH_NULL verifier, SUCCESS. */
  function SuccessReply(xid: u32): ReplyHeader {
    ReplyHeader(xid, Reply, 0, 0, 0, 0)
  }

  /** `RpcReplyHeader` serialisation: the six fields in declaration order
      (the verifier length is written without any verifier body). */
  function EncodeReplyHeader(h: ReplyHeader): (r: Bytes)
    ensures |r| == 24
    ensures WordAt(r) == h.xid && WordAt(r[4..]) == MsgTypeCode(h.msgType)
    ensures WordAt(r[8..]) == h.replyState && WordAt(r[12..]) == h.verfFlavor
    ensures WordAt(r[16..]) == h.verfLen && WordAt(r[20..]) == h.acceptState
  {
    var r := EncodeU32(h.xid) + EncodeMsgType(h.msgType) + EncodeU32(h.replyState)
      + EncodeU32(h.verfFlavor) + EncodeU32(h.verfLen) + EncodeU32(h.acceptState);
    assert r[4..][..4] == EncodeMsgType(h.msgType);
    assert r[8..][..4] == EncodeU32(h.replyState);
    assert r[12..][..4] == EncodeU32(h.verfFlavor);
    assert r[16..][..4] == EncodeU32(h.verfLen);
    assert r[20..][..4] == EncodeU32(h.acceptState);
    r
  }

  /** The success header of a call is 24 bytes: the xid, REPLY, then four zero words. */
  lemma SuccessReplyEncoding(xid: u32)
    ensures EncodeReplyHeader(SuccessReply(xid)) == EncodeU32(xid) + EncodeU32(1) + Zeros(16)
  {
    var r := EncodeReplyHeader(SuccessReply(xid));
    assert r[..4] == EncodeU32(xid) by { WordAtEncodes(r); }
    assert r[4..8] == EncodeU32(1) by { WordAtEncodes(r[4..]); }
    forall k | 2 <= k < 6
      ensures r[4 * k..4 * k + 4] == EncodeU32(0)
    {
      WordAtEncodes(r[4 * k..]);
    }
    assert r == r[..4] + r[4..8] + r[8..12] + r[12..16] + r[16..20] + r[20..24];
  }

  /** `RpcReplyHeader` deserialisation; a nonzero verifier length makes it skip
      that many bytes and their padding before the accept state. */
  function DecodeReplyHeader(s: Bytes): (r: Decoded<ReplyHeader>)
    ensures r.Some? ==> |r.value.1| <= |s| - 24
  {
    var (xid, s1) :- DecodeU32(s);
    var (msgType, s2) :- DecodeMsgType(s1);
    var (replyState, s3) :- DecodeU32(s2);
    var (verfFlavor, s4) :- DecodeU32(s3);
    var (verfLen, s5) :- DecodeU32(s4);
    var s6 :- SkipBody(verfLen, s5);
    var (acceptState, s7) :- DecodeU32(s6);
    Some((ReplyHeader(xid, msgType, replyState, verfFlavor, verfLen, acceptState), s7))
  }

  /** The reply header followed by more bytes, one field at a time. */
  lemma ReplyHeaderFields(h: ReplyHeader, rest: Bytes)
    ensures EncodeReplyHeader(h) + rest
         == EncodeU32(h.xid) + (EncodeMsgType(h.msgType) + (EncodeU32(h.replyState) + (EncodeU32(h.verfFlavor)
              + (EncodeU32(h.verfLen) + (EncodeU32(h.acceptState) + rest)))))
  {
  }

  /** A header with an empty verifier decodes back to itself. */
  lemma ReplyHeaderRoundTrip(h: ReplyHeader, rest: Bytes)
    requires h.verfLen == 0
    ensures DecodeReplyHeader(EncodeReplyHeader(h) + rest) == Some((h, rest))
  {
    var t5 := EncodeU32(h.acceptState) + rest;
    var t4 := EncodeU32(h.verfLen) + t5;
    var t3 := EncodeU32(h.verfFlavor) + t4;
    var t2 := EncodeU32(h.replyState) + t3;
    var t1 := EncodeMsgType(h.msgType) + t2;
    ReplyHeaderFields(h, rest);
    U32RoundTrip(h.xid, t1);
    MsgTypeRoundTrip(h.msgType, t2);
    U32RoundTrip(h.replyState, t3);
    U32RoundTrip(h.verfFlavor, t4);
    U32RoundTrip(h.verfLen, t5);
    U32RoundTrip(h.acceptState, rest);
  }
}
