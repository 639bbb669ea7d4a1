/** Request handling: the COMPOUND evaluator, the dispatch on the RPC call
    header, and the loop that answers one record-marked call after another on
    a connection. The file system is abstract: a root handle and a GETATTR
    encoder, either of which may fail. */
module Server {
  import opened Wrappers
  import opened Xdr
  import opened Rpc
  import opened Nfs4
  import opened Vfs

  /** What the evaluator needs from a file system. `None` stands for an
      error the backend returns, which aborts the whole request. */
  datatype Backend = Backend(rootFh: Option<Opaque>, getattrRoot: seq<u32> -> Option<Bytes>)

  /** The in-memory file system as a backend. */
  function MemBackend(m: MemVfs): Backend {
    Backend(Some(MemRootFh(m)), req => MemGetattr(m, req))
  }

  // ------------------------------------------------------------------
  // One operation
  // ------------------------------------------------------------------

  /** One entry of the result array: the opcode, its status, and the
      operation's result body. */
  datatype OpResult = OpResult(opcode: u32, status: u32, payload: Bytes)

  /** The evaluator's state: the current file handle, the overall status so
      far, and the results so far. */
  datatype EvalState = EvalState(currentFh: Option<Opaque>, overall: u32, results: seq<OpResult>)

  /** Each COMPOUND starts with no current handle and an overall status of OK. */
  const START: EvalState := EvalState(None, NFS4_OK, [])

  /** The handle PUTFH installs: its operand read back as an opaque, or the
      empty handle when the operand is empty or does not decode. */
  function PutfhHandle(opdata: Bytes): (r: Opaque)
    ensures |opdata| >= 4 && 4 + WordAt(opdata) + Pad(WordAt(opdata)) <= |opdata| ==>
      r == opdata[4..4 + WordAt(opdata)]
    ensures !(|opdata| >= 4 && 4 + WordAt(opdata) + Pad(WordAt(opdata)) <= |opdata|) ==> r == []
  {
    if |opdata| > 0 then OpaqueFromSlice(opdata).GetOr([]) else []
  }

  /** The bitmap GETATTR asks for: its operand read back as a word array, or
      no words when the operand is empty or does not decode. */
  function GetattrRequest(opdata: Bytes): (r: U32Array)
    ensures |opdata| >= 4 && 4 + 4 * WordAt(opdata) <= |opdata| ==>
      |r| == WordAt(opdata) && forall i | 0 <= i < |r| :: r[i] == WordAt(opdata[4 + 4 * i..])
    ensures !(|opdata| >= 4 && 4 + 4 * WordAt(opdata) <= |opdata|) ==> r == []
  {
    if |opdata| > 0 then U32ArrayFromSlice(opdata).GetOr([]) else []
  }

  /** A PUTFH or GETATTR that a client wrote gets back exactly the handle or
      bitmap it sent. */
  lemma OperandsReachTheEvaluator(fh: Opaque, bm: U32Array)
    ensures PutfhHandle(ExpectedOp(PutfhArgs(fh)).opdata) == fh
    ensures GetattrRequest(ExpectedOp(GetattrArgs(bm)).opdata) == bm
  {
    OpdataReadsBack(bm, fh);
  }

  /** Whether an operation aborts the request: PUTROOTFH when the backend
      has no root handle, GETATTR with a current handle when the backend
      fails to encode the attributes. */
  predicate Aborts(be: Backend, fh: Option<Opaque>, op: Op4) {
    || (op.opcode == OP_PUTROOTFH && be.rootFh.None?)
    || (op.opcode == OP_GETATTR && fh.Some? && be.getattrRoot(GetattrRequest(op.opdata)).None?)
  }

  /** The result an operation gets when `fh` is the current handle and the
      backend does not fail: the handle-setting operations succeed with no
      body; GETFH returns the handle and GETATTR the encoded attributes, or
      both fail with NFS4ERR_NOFILEHANDLE when there is no handle; anything
      else is NFS4ERR_NOTSUPP. */
  function Expected(be: Backend, fh: Option<Opaque>, op: Op4): OpResult {
    if op.opcode == OP_PUTROOTFH || op.opcode == OP_PUTFH then
      OpResult(op.opcode, NFS4_OK, [])
    else if op.opcode == OP_GETFH || op.opcode == OP_GETATTR then
      match fh
      case None => OpResult(op.opcode, NFS4ERR_NOFILEHANDLE, [])
      case Some(h) =>
        if op.opcode == OP_GETFH then OpResult(OP_GETFH, NFS4_OK, EncodeOpaque(h))
        else OpResult(OP_GETATTR, NFS4_OK, be.getattrRoot(GetattrRequest(op.opdata)).GetOr([]))
    else
      OpResult(op.opcode, NFS4ERR_NOTSUPP, [])
  }

  /** The handle in force after `op`, when it was `fh` before. */
  function NextHandle(be: Backend, fh: Option<Opaque>, op: Op4): Option<Opaque> {
    if op.opcode == OP_PUTROOTFH then be.rootFh
    else if op.opcode == OP_PUTFH then Some(PutfhHandle(op.opdata))
    else fh
  }

  /** One turn of the loop over the operations. It fails only when the
      backend does; otherwise it appends the operation's result, makes a
      failing status the overall status, and updates the current handle. */
  function Step(be: Backend, st: EvalState, op: Op4): (r: Option<EvalState>)
    ensures r.None? <==> Aborts(be, st.currentFh, op)
    ensures r.Some? ==>
      var res := Expected(be, st.currentFh, op);
      && r.value.results == st.results + [res]
      && r.value.overall == (if res.status != NFS4_OK then res.status else st.overall)
      && r.value.currentFh == NextHandle(be, st.currentFh, op)
  {
    if op.opcode == OP_PUTROOTFH then
      var fh :- be.rootFh;
      Some(st.(currentFh := Some(fh), results := st.results + [OpResult(OP_PUTROOTFH, NFS4_OK, [])]))
    else if op.opcode == OP_PUTFH then
      var fh := PutfhHandle(op.opdata);
      Some(st.(currentFh := Some(fh), results := st.results + [OpResult(OP_PUTFH, NFS4_OK, [])]))
    else if op.opcode == OP_GETFH then
      match st.currentFh
      case Some(fh) =>
        Some(st.(results := st.results + [OpResult(OP_GETFH, NFS4_OK, EncodeOpaque(fh))]))
      case None =>
        Some(st.(overall := NFS4ERR_NOFILEHANDLE,
                 results := st.results + [OpResult(OP_GETFH, NFS4ERR_NOFILEHANDLE, [])]))
    else if op.opcode == OP_GETATTR then
      if st.currentFh.Some? then
        var fattr :- be.getattrRoot(GetattrRequest(op.opdata));
        Some(st.(results := st.results + [OpResult(OP_GETATTR, NFS4_OK, fattr)]))
      else
        Some(st.(overall := NFS4ERR_NOFILEHANDLE,
                 results := st.results + [OpResult(OP_GETATTR, NFS4ERR_NOFILEHANDLE, [])]))
    else
      Some(st.(overall := NFS4ERR_NOTSUPP,
               results := st.results + [OpResult(op.opcode, NFS4ERR_NOTSUPP, [])]))
  }

  // ------------------------------------------------------------------
  // The whole operation list
  // ------------------------------------------------------------------

  /** The current handle after `ops`: set by the last PUTROOTFH or PUTFH
      among them, and absent when there is none. */
  function HandleAfter(be: Backend, ops: seq<Op4>): Option<Opaque>
    decreases |ops|
  {
    if |ops| == 0 then None
    else NextHandle(be, HandleAfter(be, ops[..|ops| - 1]), ops[|ops| - 1])
  }

  /** The status of the last failing result, or OK when none failed. */
  function LastFailure(results: seq<OpResult>): u32
    decreases |results|
  {
    if |results| == 0 then NFS4_OK
    else if results[|results| - 1].status != NFS4_OK then results[|results| - 1].status
    else LastFailure(results[..|results| - 1])
  }

  /** The loop over the operations, in order. It does not stop at a failing
      operation: every operation gets exactly one result, in the same
      position and with its own opcode, and the overall status is that of
      the last failure. */
  function EvalOps(be: Backend, ops: seq<Op4>): (r: Option<EvalState>)
    ensures r.Some? ==> |r.value.results| == |ops|
    ensures r.Some? ==> forall i | 0 <= i < |ops| :: r.value.results[i].opcode == ops[i].opcode
    ensures r.Some? ==> r.value.overall == LastFailure(r.value.results)
    ensures r.Some? ==> r.value.currentFh == HandleAfter(be, ops)
    decreases |ops|
  {
    if |ops| == 0 then Some(START)
    else
      var st :- EvalOps(be, ops[..|ops| - 1]);
      var r := Step(be, st, ops[|ops| - 1]);
      assert r.Some? ==> r.value.results[..|ops| - 1] == st.results;
      r
  }

  /** Each result is the one the operation gets with the handle left by the
      operations before it. */
  lemma {:induction false} EvalMatchesExpected(be: Backend, ops: seq<Op4>)
    requires EvalOps(be, ops).Some?
    ensures var st := EvalOps(be, ops).value;
      forall i | 0 <= i < |ops| :: st.results[i] == Expected(be, HandleAfter(be, ops[..i]), ops[i])
    decreases |ops|
  {
    if |ops| > 0 {
      var n := |ops| - 1;
      var prefix := ops[..n];
      var st := EvalOps(be, ops).value;
      var st' := EvalOps(be, prefix).value;
      EvalMatchesExpected(be, prefix);
      assert st.results == st'.results + [Expected(be, st'.currentFh, ops[n])];
      forall i | 0 <= i < |ops|
        ensures st.results[i] == Expected(be, HandleAfter(be, ops[..i]), ops[i])
      {
        if i < n {
          assert prefix[..i] == ops[..i];
        } else {
          assert ops[..i] == prefix;
        }
      }
    }
  }

  /** Whether operation `i` aborts, given the operations before it. */
  predicate AbortsAt(be: Backend, ops: seq<Op4>, i: nat)
    requires i < |ops|
  {
    Aborts(be, HandleAfter(be, ops[..i]), ops[i])
  }

  /** Whether operation `i` aborts does not depend on the operations after it. */
  lemma AbortsAtPrefix(be: Backend, ops: seq<Op4>, k: nat, i: nat)
    requires i < k <= |ops|
    ensures AbortsAt(be, ops[..k], i) == AbortsAt(be, ops, i)
  {
    assert ops[..k][..i] == ops[..i];
  }

  /** The request aborts exactly when some operation aborts with the handle
      left by the operations before it. */
  lemma {:induction false} EvalAbortsIff(be: Backend, ops: seq<Op4>)
    ensures EvalOps(be, ops).None? <==> exists i | 0 <= i < |ops| :: AbortsAt(be, ops, i)
    decreases |ops|
  {
    if |ops| > 0 {
      var n := |ops| - 1;
      var prefix := ops[..n];
      EvalAbortsIff(be, prefix);
      forall i | 0 <= i < n
        ensures AbortsAt(be, prefix, i) == AbortsAt(be, ops, i)
      {
        AbortsAtPrefix(be, ops, n, i);
      }
      if EvalOps(be, prefix).Some? {
        assert EvalOps(be, prefix).value.currentFh == HandleAfter(be, ops[..n]);
        assert EvalOps(be, ops).None? <==> AbortsAt(be, ops, n);
      }
    }
  }

  /** A backend that never fails lets every COMPOUND run to the end. */
  lemma ReliableBackendCompletes(be: Backend, ops: seq<Op4>)
    requires be.rootFh.Some?
    requires forall req: seq<u32> :: be.getattrRoot(req).Some?
    ensures EvalOps(be, ops).Some?
  {
    EvalAbortsIff(be, ops);
  }

  /** The in-memory file system never fails while "/" has an entry. */
  lemma MemBackendCompletes(m: MemVfs, ops: seq<Op4>)
    requires "/" in m.attrs
    ensures EvalOps(MemBackend(m), ops).Some?
  {
    ReliableBackendCompletes(MemBackend(m), ops);
  }

  /** The overall status is OK exactly when every operation succeeded. */
  lemma {:induction false} LastFailureOk(results: seq<OpResult>)
    ensures LastFailure(results) == NFS4_OK <==> forall i | 0 <= i < |results| :: results[i].status == NFS4_OK
    decreases |results|
  {
    if |results| > 0 {
      var n := |results| - 1;
      var prefix := results[..n];
      LastFailureOk(prefix);
      assert forall i | 0 <= i < n :: prefix[i] == results[i];
    }
  }

  /** A failing overall status is the status of a failing operation after
      which all succeeded. */
  lemma {:induction false} LastFailureWitness(results: seq<OpResult>)
    requires LastFailure(results) != NFS4_OK
    ensures exists j | 0 <= j < |results| ::
      && results[j].status == LastFailure(results)
      && forall k | j < k < |results| :: results[k].status == NFS4_OK
    decreases |results|
  {
    assert |results| > 0;
    var n := |results| - 1;
    if results[n].status != NFS4_OK {
      assert results[n].status == LastFailure(results);
    } else {
      var prefix := results[..n];
      assert LastFailure(prefix) == LastFailure(results);
      LastFailureWitness(prefix);
      var j :| 0 <= j < n && prefix[j].status == LastFailure(prefix)
        && forall k | j < k < n :: prefix[k].status == NFS4_OK;
      forall k | j < k < |results|
        ensures results[k].status == NFS4_OK
      {
        if k < n {
          assert results[k] == prefix[k];
        }
      }
      assert results[j] == prefix[j];
    }
  }

  /** Without a PUTROOTFH or PUTFH there is no current handle. */
  lemma {:induction false} NoPutNoHandle(be: Backend, ops: seq<Op4>)
    requires forall i | 0 <= i < |ops| :: ops[i].opcode != OP_PUTROOTFH && ops[i].opcode != OP_PUTFH
    ensures HandleAfter(be, ops) == None
    decreases |ops|
  {
    if |ops| > 0 {
      NoPutNoHandle(be, ops[..|ops| - 1]);
    }
  }

  /** GETFH or GETATTR before any handle is set fails with
      NFS4ERR_NOFILEHANDLE and an empty body, and the request goes on. */
  lemma NoHandleFails(be: Backend, ops: seq<Op4>, i: nat)
    requires i < |ops| && EvalOps(be, ops).Some?
    requires ops[i].opcode == OP_GETFH || ops[i].opcode == OP_GETATTR
    requires forall k | 0 <= k < i :: ops[k].opcode != OP_PUTROOTFH && ops[k].opcode != OP_PUTFH
    ensures EvalOps(be, ops).value.results[i] == OpResult(ops[i].opcode, NFS4ERR_NOFILEHANDLE, [])
    ensures EvalOps(be, ops).value.overall != NFS4_OK
  {
    EvalMatchesExpected(be, ops);
    NoPutNoHandle(be, ops[..i]);
    LastFailureOk(EvalOps(be, ops).value.results);
  }

  /** The handle after one more operation is that operation's update of the
      handle before it. */
  lemma HandleStep(be: Backend, ops: seq<Op4>, k: nat)
    requires k < |ops|
    ensures HandleAfter(be, ops[..k + 1]) == NextHandle(be, HandleAfter(be, ops[..k]), ops[k])
  {
    assert ops[..k + 1][..k] == ops[..k];
  }

  /** The result of operation `i`, given the operations before it. */
  lemma ResultAt(be: Backend, ops: seq<Op4>, i: nat)
    requires i < |ops| && EvalOps(be, ops).Some?
    ensures EvalOps(be, ops).value.results[i] == Expected(be, HandleAfter(be, ops[..i]), ops[i])
  {
    EvalMatchesExpected(be, ops);
  }

  /** GETFH right after PUTROOTFH returns the backend's root handle. */
  lemma GetfhAfterPutrootfh(be: Backend, ops: seq<Op4>, i: nat)
    requires 0 < i < |ops| && EvalOps(be, ops).Some?
    requires ops[i - 1].opcode == OP_PUTROOTFH && ops[i].opcode == OP_GETFH
    ensures be.rootFh.Some?
    ensures EvalOps(be, ops).value.results[i] == OpResult(OP_GETFH, NFS4_OK, EncodeOpaque(be.rootFh.value))
  {
    EvalAbortsIff(be, ops);
    assert !AbortsAt(be, ops, i - 1);
    HandleStep(be, ops, i - 1);
    ResultAt(be, ops, i);
  }

  /** An operation the server does not implement fails with NFS4ERR_NOTSUPP
      and an empty body, leaves the handle as it was, and makes the overall
      status a failure. */
  lemma UnsupportedOpFails(be: Backend, ops: seq<Op4>, i: nat)
    requires i < |ops| && EvalOps(be, ops).Some?
    requires ops[i].opcode != OP_PUTROOTFH && ops[i].opcode != OP_PUTFH
    requires ops[i].opcode != OP_GETFH && ops[i].opcode != OP_GETATTR
    ensures EvalOps(be, ops).value.results[i] == OpResult(ops[i].opcode, NFS4ERR_NOTSUPP, [])
    ensures HandleAfter(be, ops[..i + 1]) == HandleAfter(be, ops[..i])
    ensures EvalOps(be, ops).value.overall != NFS4_OK
  {
    ResultAt(be, ops, i);
    HandleStep(be, ops, i);
    LastFailureOk(EvalOps(be, ops).value.results);
  }

  // ------------------------------------------------------------------
  // Dispatch on the call header
  // ------------------------------------------------------------------

  /** Why the server stops answering on a connection: the input ends inside
      a record, a call or its arguments do not decode, or the backend fails. */
  datatype Fault = FramingFault | DecodeFault | BackendFault

  /** The result array as written: per result, opcode, status and body. */
  function EncodeResults(results: seq<OpResult>): (r: Bytes)
    ensures |r| >= 8 * |results|
  {
    if |results| == 0 then []
    else
      EncodeU32(results[0].opcode) + EncodeU32(results[0].status) + results[0].payload
        + EncodeResults(results[1..])
  }

  /** The result array is written result by result: writing two runs of
      results one after the other gives the two encodings concatenated. */
  lemma {:induction false} EncodeResultsAppend(a: seq<OpResult>, b: seq<OpResult>)
    ensures EncodeResults(a + b) == EncodeResults(a) + EncodeResults(b)
  {
    if |a| == 0 {
      assert a + b == b;
    } else {
      assert (a + b)[1..] == a[1..] + b;
      EncodeResultsAppend(a[1..], b);
    }
  }

  /** One result is written as its opcode, its status and its body. */
  lemma EncodeOneResult(x: OpResult)
    ensures EncodeResults([x]) == EncodeU32(x.opcode) + EncodeU32(x.status) + x.payload
  {
  }

  /** The body of a COMPOUND reply: the result header, the result count and
      the results. */
  function CompoundReply(tag: XdrString, st: EvalState): Bytes
    requires |st.results| < TWO_32
  {
    EncodeCompoundRes(Compound4Res(st.overall, tag)) + EncodeU32(|st.results|) + EncodeResults(st.results)
  }

  /** What follows the reply header. A call for another program or version
      gets the status word 10007; NULL gets nothing; COMPOUND gets the
      evaluated results; any other procedure gets 10004. */
  function ReplyBody(be: Backend, call: CallHeader, body: Bytes): (r: Result<Bytes, Fault>)
    ensures r.Failure? ==>
      call.prog == NFS4_PROGRAM && call.vers == NFS4_VERSION && call.proc == PROC_COMPOUND
    ensures r.Failure? ==> r.error != FramingFault
    ensures r.Failure? ==> (r.error == DecodeFault <==> DecodeCompoundArgs(body).None?)
  {
    if call.prog != NFS4_PROGRAM || call.vers != NFS4_VERSION then
      Success(EncodeU32(NFS4ERR_BADTYPE))
    else if call.proc == PROC_NULL then
      Success([])
    else if call.proc == PROC_COMPOUND then
      match DecodeCompoundArgs(body)
      case None => Failure(DecodeFault)
      case Some((args, _)) =>
        match EvalOps(be, args.operations)
        case None => Failure(BackendFault)
        case Some(st) => Success(CompoundReply(args.tag, st))
    else
      Success(EncodeU32(NFS4ERR_NOTSUPP))
  }

  /** The unframed reply to one call message: a success reply header echoing
      the xid, then the body for the procedure called. */
  function ReplyFor(be: Backend, msg: Bytes): (r: Result<Bytes, Fault>)
    ensures DecodeCallHeader(msg).None? ==> r == Failure(DecodeFault)
    ensures r.Success? ==> DecodeCallHeader(msg).Some? && |r.value| >= 24
    ensures r.Success? ==> r.value[..24] == EncodeReplyHeader(SuccessReply(DecodeCallHeader(msg).value.0.xid))
  {
    match DecodeCallHeader(msg)
    case None => Failure(DecodeFault)
    case Some((call, body)) =>
      var tail :- ReplyBody(be, call, body);
      Success(EncodeReplyHeader(SuccessReply(call.xid)) + tail)
  }

  /** A client reading a COMPOUND reply body finds the overall status, the
      tag it sent, and the number of results. */
  lemma CompoundReplyReadsBack(tag: XdrString, st: EvalState)
    requires |st.results| < TWO_32
    ensures var r := CompoundReply(tag, st);
      var afterStatus := r[4..];
      && DecodeU32(r) == Some((st.overall, afterStatus))
      && DecodeString(afterStatus) == Some((tag, EncodeU32(|st.results|) + EncodeResults(st.results)))
  {
    var tail := EncodeU32(|st.results|) + EncodeResults(st.results);
    var r := CompoundReply(tag, st);
    assert r == EncodeU32(st.overall) + (EncodeString(tag) + tail);
    U32RoundTrip(st.overall, EncodeString(tag) + tail);
    StringRoundTrip(tag, tail);
  }

  /** Every reply starts with a success reply header that echoes the call's
      xid; what follows depends on the program, version and procedure. Only
      a COMPOUND can fail once the header has been read. */
  lemma ReplyEchoesXid(be: Backend, msg: Bytes)
    ensures DecodeCallHeader(msg).None? ==> ReplyFor(be, msg) == Failure(DecodeFault)
    ensures DecodeCallHeader(msg).Some? ==>
      var (call, body) := DecodeCallHeader(msg).value;
      var versionOk := call.prog == NFS4_PROGRAM && call.vers == NFS4_VERSION;
      && (ReplyFor(be, msg).Failure? ==> versionOk && call.proc == PROC_COMPOUND)
      && (ReplyFor(be, msg).Success? ==>
          var r := ReplyFor(be, msg).value;
          && DecodeReplyHeader(r).Some?
          && DecodeReplyHeader(r).value.0 == SuccessReply(call.xid)
          && var rest := DecodeReplyHeader(r).value.1;
          && (!versionOk ==> rest == EncodeU32(NFS4ERR_BADTYPE))
          && (versionOk && call.proc == PROC_NULL ==> rest == [])
          && (versionOk && call.proc != PROC_NULL && call.proc != PROC_COMPOUND ==> rest == EncodeU32(NFS4ERR_NOTSUPP)))
  {
    if DecodeCallHeader(msg).None? {
      return;
    }
    var (call, body) := DecodeCallHeader(msg).value;
    var tail := ReplyBody(be, call, body);
    if tail.Success? {
      var r := EncodeReplyHeader(SuccessReply(call.xid)) + tail.value;
      assert ReplyFor(be, msg) == Success(r);
      assert DecodeReplyHeader(r) == Some((SuccessReply(call.xid), tail.value)) by {
        ReplyHeaderRoundTrip(SuccessReply(call.xid), tail.value);
      }
    } else {
      assert ReplyFor(be, msg).Failure?;
    }
  }

  /** A COMPOUND call a client wrote, with any credential and verifier, is
      answered with the evaluation of the operations it sent, each with its
      operand as sent. */
  lemma ReplyToCompoundCall(be: Backend, h: CallHeader, cred: OpaqueAuth, verf: OpaqueAuth, tag: XdrString, minorVersion: u32, ops: seq<OpArgs>, trailer: Bytes)
    requires h.prog == NFS4_PROGRAM && h.vers == NFS4_VERSION && h.proc == PROC_COMPOUND
    requires |ops| < TWO_32 && forall i | 0 <= i < |ops| :: ops[i].Valid()
    ensures var msg := EncodeCall(h, cred, verf) + (EncodeCompoundCall(tag, minorVersion, ops) + trailer);
      var hdr := EncodeReplyHeader(SuccessReply(h.xid));
      match EvalOps(be, ExpectedOps(ops))
      case None => ReplyFor(be, msg) == Failure(BackendFault)
      case Some(st) => ReplyFor(be, msg) == Success(hdr + CompoundReply(tag, st))
  {
    var args := EncodeCompoundCall(tag, minorVersion, ops) + trailer;
    CallHeaderRoundTrip(h, cred, verf, args);
    CompoundArgsRoundTrip(tag, minorVersion, ops, trailer);
  }

  // ------------------------------------------------------------------
  // The connection loop
  // ------------------------------------------------------------------

  /** How a connection ends: everything the server wrote, and why it stopped. */
  datatype ConnEnd = ConnEnd(written: Bytes, reason: Fault)

  /** `handle_conn` over the bytes a client sends: read one record, answer
      it with a record-marked reply, and go on until a record cannot be read
      or answered. Every reply goes out as a single last fragment. */
  function Serve(be: Backend, input: Bytes): (r: ConnEnd)
    ensures |r.written| > 0 ==> r.written[0] >= 0x80
    decreases |input|
  {
    match ReadRecordMarked(input)
    case None => ConnEnd([], FramingFault)
    case Some((msg, rest)) =>
      match ReplyFor(be, msg)
      case Failure(f) => ConnEnd([], f)
      case Success(reply) =>
        var more := Serve(be, rest);
        ConnEnd(WriteRecordMarked(reply) + more.written, more.reason)
  }

  /** A record-marked call is answered with its framed reply, which the
      client reads back whole, and the server then reads the next record. */
  lemma ServeAnswersEachCall(be: Backend, msg: Bytes, rest: Bytes)
    requires |msg| < TWO_31
    ensures ReplyFor(be, msg).Success? && |ReplyFor(be, msg).value| < TWO_31 ==>
      var reply := ReplyFor(be, msg).value;
      var more := Serve(be, rest);
      var out := Serve(be, WriteRecordMarked(msg) + rest);
      && out == ConnEnd(WriteRecordMarked(reply) + more.written, more.reason)
      && ReadRecordMarked(out.written) == Some((reply, more.written))
  {
    RecordRoundTrip(msg, rest);
    if ReplyFor(be, msg).Success? && |ReplyFor(be, msg).value| < TWO_31 {
      RecordRoundTrip(ReplyFor(be, msg).value, Serve(be, rest).written);
    }
  }

  // ------------------------------------------------------------------
  // A COMPOUND as a client sends it to the in-memory file system
  // ------------------------------------------------------------------

  /** PUTROOTFH, GETFH, GETATTR, LOOKUP, SETATTR as a client writes them. */
  function SampleOps(request: U32Array, name: XdrString, mask: U32Array, vals: Opaque): seq<OpArgs> {
    [NoOperand(OP_PUTROOTFH), NoOperand(OP_GETFH), GetattrArgs(request), LookupArgs(name), SetattrArgs(mask, vals)]
  }

  /** PUTROOTFH, GETFH, GETATTR, LOOKUP, SETATTR against a backend that does
      not fail: one result each; the first three succeed, with GETFH
      returning the root handle and GETATTR the backend's encoding; LOOKUP
      and SETATTR are not supported, and the overall status is
      NFS4ERR_NOTSUPP. */
  lemma FiveOpCompound(be: Backend, ops: seq<Op4>)
    requires be.rootFh.Some?
    requires forall req: seq<u32> :: be.getattrRoot(req).Some?
    requires |ops| == 5
    requires ops[0].opcode == OP_PUTROOTFH && ops[1].opcode == OP_GETFH && ops[2].opcode == OP_GETATTR
    requires ops[3].opcode == OP_LOOKUP && ops[4].opcode == OP_SETATTR
    ensures var st := EvalOps(be, ops);
      && st.Some?
      && |st.value.results| == 5
      && [st.value.results[0].status, st.value.results[1].status, st.value.results[2].status,
          st.value.results[3].status, st.value.results[4].status]
         == [NFS4_OK, NFS4_OK, NFS4_OK, NFS4ERR_NOTSUPP, NFS4ERR_NOTSUPP]
      && st.value.results[1].payload == EncodeOpaque(be.rootFh.value)
      && st.value.results[2].payload == be.getattrRoot(GetattrRequest(ops[2].opdata)).value
      && st.value.overall == NFS4ERR_NOTSUPP
  {
    ReliableBackendCompletes(be, ops);
    GetfhAfterPutrootfh(be, ops, 1);
    ResultAt(be, ops, 0);
    HandleStep(be, ops, 0);
    HandleStep(be, ops, 1);
    ResultAt(be, ops, 2);
    UnsupportedOpFails(be, ops, 3);
    UnsupportedOpFails(be, ops, 4);
  }

  /** The in-memory file system never fails while "/" has an entry. */
  lemma MemBackendReliable(m: MemVfs)
    requires "/" in m.attrs
    ensures MemBackend(m).rootFh == Some(m.rootFh)
    ensures forall req: seq<u32> :: MemBackend(m).getattrRoot(req) == Some(GetattrRoot(m.rootFh, m.attrs["/"], req))
  {
  }

  /** The in-memory file system answers the sample COMPOUND as above: GETFH
      returns its root handle and GETATTR the attributes of "/" for the
      bitmap the client sent. A freshly built file system has "/". */
  lemma SampleCompound(m: MemVfs, request: U32Array, name: XdrString, mask: U32Array, vals: Opaque)
    requires "/" in m.attrs
    ensures var st := EvalOps(MemBackend(m), ExpectedOps(SampleOps(request, name, mask, vals)));
      && st.Some?
      && [st.value.results[0].status, st.value.results[1].status, st.value.results[2].status,
          st.value.results[3].status, st.value.results[4].status]
         == [NFS4_OK, NFS4_OK, NFS4_OK, NFS4ERR_NOTSUPP, NFS4ERR_NOTSUPP]
      && st.value.results[1].payload == EncodeOpaque(m.rootFh)
      && st.value.results[2].payload == GetattrRoot(m.rootFh, m.attrs["/"], request)
      && st.value.overall == NFS4ERR_NOTSUPP
  {
    var be := MemBackend(m);
    var ops := ExpectedOps(SampleOps(request, name, mask, vals));
    assert ops[2] == ExpectedOp(GetattrArgs(request));
    OperandsReachTheEvaluator([], request);
    MemBackendReliable(m);
    FiveOpCompound(be, ops);
  }

  /** GETFH alone fails for want of a handle. */
  lemma GetfhWithoutHandle(be: Backend)
    ensures EvalOps(be, [Op4(OP_GETFH, [])])
         == Some(EvalState(None, NFS4ERR_NOFILEHANDLE, [OpResult(OP_GETFH, NFS4ERR_NOFILEHANDLE, [])]))
  {
    var ops := [Op4(OP_GETFH, [])];
    assert ops[..0] == [];
    assert EvalOps(be, ops[..0]) == Some(START);
    assert START.currentFh == None && START.results == [];
    assert Step(be, START, ops[0]).Some?;
    assert Step(be, START, ops[0]).value.results == [OpResult(OP_GETFH, NFS4ERR_NOFILEHANDLE, [])];
    assert Step(be, START, ops[0])
        == Some(EvalState(None, NFS4ERR_NOFILEHANDLE, [OpResult(OP_GETFH, NFS4ERR_NOFILEHANDLE, [])]));
  }
}
