# nfs-rs protocol core in Dafny

This project models the protocol layer of `nfs-rs`, a skeleton NFSv4.2 server.
The layer is byte-in, byte-out logic plus one small state machine:

- **`Xdr`** (`xdr.dfy`): the XDR codec of RFC 4506. It covers `u32`, `i32`,
  `u64`, `bool`, variable-length opaque data, `XdrString`, `Vec<u32>` arrays,
  `deserialize_from_slice`, and the `encode_fattr4` helper. Bytes are integers
  in `0..255`. Each decoder returns `Option<(value, rest)>`.
- **`Rpc`** (`rpc.dfy`): ONC RPC record marking (section 11 of RFC 5531), the
  message type, and the call and reply headers (section 9 of RFC 5531).
  `RecordMark` writes out the source's `as u32` truncation and its bitwise OR.
- **`Nfs4`** (`nfs4.dfy`): the protocol constants, COMPOUND argument parsing,
  the COMPOUND result header, and `bitmap4_with`.
  - Parsing decodes the operands of GETATTR, PUTFH, LOOKUP and SETATTR and
    re-encodes them into `opdata`. Every other opcode gets empty `opdata`.
  - Bit tests and bit sets on bitmap words are defined arithmetically.
- **`Vfs`** (`vfs.dfy`): the in-memory file system as pure functions.
  - The attribute store is a `map<string, FileAttr>`.
  - The clock is a `now` parameter.
  - `getattr_root` takes the root handle, the root's attributes and the
    request bitmap.
- **`Errors`** (`error.dfy`): the mapping from `NfsError` to the NFSv4 status
  codes.
- **`Server`** (`server.dfy`): the body of `handle_conn`.
  - The server reads one record and decodes the call header.
  - It answers by program, version and procedure.
  - A COMPOUND is evaluated by folding the operations over the state
    (current handle, overall status, results).
  - The reply is framed as a single last fragment.
  - The file system is a `Backend`: a root handle and a getattr function. Either
    may fail. A failure ends the connection, as the source's `?` does.

The evaluator continues after a failing operation. Section 16.2 of RFC 7530
requires a COMPOUND to stop at the first error, but the code runs every
operation. The model does what the code does: the overall status is the status
of the last failing operation.

## Model

| member | source | states |
|---|---|---|
| Xdr.EncodeU32 | src/xdr.rs:12-16 | a `u32` goes out as exactly four bytes whose big-endian value is the number |
| Xdr.DecodeU32 | src/xdr.rs:17-21 | reading a word succeeds exactly when four bytes are present, and the input is then that word's encoding followed by what is left |
| Xdr.U32RoundTrip | src/xdr.rs:12-21 | decoding an encoded `u32` gives back the number and leaves the following bytes untouched |
| Xdr.WordAtEncodes | src/xdr.rs:12-21 | any four bytes are the encoding of the word read from them, so decode-then-encode is the identity on words |
| Xdr.EncodeI32 | src/xdr.rs:23-27 | an `i32` goes out as four bytes holding its two's-complement value; the top bit is set exactly for negative numbers |
| Xdr.DecodeI32 | src/xdr.rs:28-32 | reading an `i32` succeeds exactly when four bytes are present, and the input is then its encoding followed by the rest |
| Xdr.I32RoundTrip | src/xdr.rs:23-32 | decoding an encoded `i32` gives back the number, negative ones included |
| Xdr.EncodeU64 | src/xdr.rs:34-38 | a `u64` goes out as eight bytes: high word first, then low word |
| Xdr.DecodeU64 | src/xdr.rs:39-43 | reading a `u64` succeeds exactly when eight bytes are present, and the input is then its encoding followed by the rest |
| Xdr.U64RoundTrip | src/xdr.rs:34-43 | decoding an encoded `u64` gives back the number |
| Xdr.EncodeBool | src/xdr.rs:45-50 | a boolean goes out as the word 1 for true and 0 for false |
| Xdr.DecodeBool | src/xdr.rs:51-56 | any nonzero word reads as true and only zero reads as false |
| Xdr.BoolRoundTrip | src/xdr.rs:45-56 | decoding an encoded boolean gives back the boolean |
| Xdr.Pad | src/xdr.rs:64 | the padding is under four bytes and brings the length to a multiple of four |
| Xdr.EncodeOpaque | src/xdr.rs:58-71 | opaque data goes out as its length word, the bytes, then zero padding; the total is 4 + n + pad, a multiple of four |
| Xdr.DecodeOpaque | src/xdr.rs:72-85 | decoding succeeds exactly when the input holds the declared length plus its padding, so a value is never truncated; the value is the bytes after the length word |
| Xdr.OpaqueRoundTrip | src/xdr.rs:58-85 | decoding encoded opaque data of any length gives back the data and the rest |
| Xdr.OpaquePaddingIgnored | src/xdr.rs:78-82 | padding is skipped unchecked: an input with nonzero padding still decodes, so decode-then-encode is not the identity |
| Xdr.EncodeString | src/xdr.rs:122-126 | a string goes out as its length word, its bytes, then zero padding |
| Xdr.DecodeString | src/xdr.rs:127-132 | a string decodes exactly when opaque data decodes, to the same bytes and the same rest |
| Xdr.StringRoundTrip | src/xdr.rs:122-132 | a string has the opaque encoding's length, and decoding an encoded string gives back the string |
| Xdr.OpaqueFromSlice | src/xdr.rs:140-143 | reading opaque data from a whole buffer succeeds exactly when the buffer holds the declared length plus padding, and gives the bytes after the length word; trailing bytes are ignored |
| Xdr.U32ArrayFromSlice | src/xdr.rs:140-143 | reading a word array from a whole buffer succeeds exactly when the buffer holds the declared number of words, and word i is the i-th word after the count |
| Xdr.EncodeU32List | src/xdr.rs:91-93 | the elements go out as consecutive words with no padding, word i holding element i |
| Xdr.EncodeU32Array | src/xdr.rs:87-96 | an array goes out as a count word, then one word per element: 4 + 4k bytes |
| Xdr.DecodeU32List | src/xdr.rs:100-104 | reading n words succeeds exactly when 4n bytes are present, and the input is then their encoding followed by the rest |
| Xdr.DecodeU32Array | src/xdr.rs:97-106 | reading an array succeeds exactly when the count word and that many words are present |
| Xdr.U32ListRoundTrip | src/xdr.rs:87-106 | decoding n encoded words gives back the same list |
| Xdr.U32ArrayRoundTrip | src/xdr.rs:87-106 | decoding an encoded array gives back the array and the rest |
| Xdr.FromSliceRoundTrip | src/xdr.rs:140-143 | reading from a buffer that starts with an encoded value gives that value, whatever trails it |
| Xdr.EncodeFattr4 | src/xdr.rs:147-159 | an `fattr4` is the encoded mask followed by the attribute values as opaque data |
| Rpc.RecordMark | src/rpc.rs:7-9 | the header always has the last-fragment bit set, and its low 31 bits hold the length modulo 2^31 |
| Rpc.WriteRecordMarked | src/rpc.rs:6-13 | a record is a four-byte header followed by the payload unchanged; the first byte has its top bit set |
| Rpc.ReadRecordMarked | src/rpc.rs:15-22 | reading succeeds exactly when the input holds the header and as many bytes as its low 31 bits say |
| Rpc.ReadIgnoresLastFragmentBit | src/rpc.rs:16-18 | a header with or without the last-fragment bit frames the same payload |
| Rpc.RecordRoundTrip | src/rpc.rs:6-22 | reading a written record gives back the payload, empty ones included, for payloads under 2^31 bytes |
| Rpc.RecordLengthOverflow | src/rpc.rs:7-9 | a payload of exactly 2^31 bytes gets a header whose length field is 0, so the reader sees an empty record |
| Rpc.EncodeMsgType | src/rpc.rs:30-35 | a message type goes out as one word holding its code: 0 for a call, 1 for a reply |
| Rpc.DecodeMsgType | src/rpc.rs:36-45 | the word 0 reads as a call and 1 as a reply; any other word is an error |
| Rpc.MsgTypeRoundTrip | src/rpc.rs:30-45 | decoding an encoded message type gives it back |
| Rpc.EncodeCallHeader | src/rpc.rs:57-73 | a call header is 40 bytes: the six fields, then an AUTH_NULL credential and verifier as four zero words |
| Rpc.EncodeCallHeaderIsNullAuth | src/rpc.rs:65-70 | the header's fixed tail is the encoding of an empty credential and an empty verifier |
| Rpc.EncodeCall | src/rpc.rs:57-73 | a call with a credential and verifier is the 24 bytes of fixed fields followed by the two authenticators, each length word plus body plus padding |
| Rpc.DecodeCallFields | src/rpc.rs:76-81 | the six fixed fields decode exactly when 24 bytes are present and the message type word is 0 or 1; they are then the encoding of the header read, and the rest follows them |
| Rpc.SkipBody | src/rpc.rs:85-93 | skipping an authenticator body succeeds exactly when its length and padding are present, and drops exactly those bytes |
| Rpc.DecodeCallHeader | src/rpc.rs:74-107 | a call header decodes only when its six fixed fields do, to those fields, and consumes at least 40 bytes |
| Rpc.SkipAuth | src/rpc.rs:82-105 | skipping a credential or verifier succeeds exactly when the flavor, the length and length+pad body bytes are present, and it consumes exactly those |
| Rpc.SkipAuthConsumesAuth | src/rpc.rs:82-105 | skipping an encoded credential of any length leaves exactly what followed it |
| Rpc.CallFieldsRoundTrip | src/rpc.rs:76-81 | the six header fields read back from their encoding |
| Rpc.CallHeaderRoundTrip | src/rpc.rs:57-107 | a call header with any credential and verifier decodes to the header, and the bytes after the verifier are untouched |
| Rpc.NullCallHeaderRoundTrip | src/rpc.rs:57-107 | the 40-byte header the library writes decodes to the same xid, message type, RPC version, program, version and procedure |
| Rpc.EncodeReplyHeader | src/rpc.rs:133-143 | a reply header is 24 bytes holding the six fields as words, in field order |
| Rpc.SuccessReplyEncoding | src/rpc.rs:120-143 | a success reply is the xid, the Reply word 1, then four zero words |
| Rpc.DecodeReplyHeader | src/rpc.rs:145-164 | a decoded reply header consumes at least its 24 bytes |
| Rpc.ReplyHeaderRoundTrip | src/rpc.rs:133-164 | a reply header with an empty verifier decodes back to itself |
| Nfs4.SetBit | src/proto/nfs4.rs:158 | setting bit k of a word adds exactly bit k |
| Nfs4.BitsDetermineWord | src/proto/nfs4.rs:158 | two n-bit words with the same bits are equal |
| Nfs4.MaxOf | src/proto/nfs4.rs:152 | the largest bit requested, or 0 when none is |
| Nfs4.BitmapHas | src/vfs.rs:105-110 | a bit is requested only when its word index lies inside the request bitmap |
| Nfs4.BitmapExtensional | src/proto/nfs4.rs:150-161 | two bitmaps of the same length that mark the same bits are equal |
| Nfs4.SetBitmapBits | src/proto/nfs4.rs:155-159 | setting a list of bits marks exactly the old bits plus the listed ones, keeping the length |
| Nfs4.BitmapWith | src/proto/nfs4.rs:150-161 | the bitmap has max(bits)/32 + 1 words, one zero word for no bits, and bit b is set exactly when b is listed |
| Nfs4.DecodeOperand | src/proto/nfs4.rs:115-136 | an unrecognised opcode consumes nothing and gets empty `opdata`; a GETATTR operand is exactly the bytes it consumed |
| Nfs4.TruncatedOperandFails | src/proto/nfs4.rs:116-133 | if the first operation's operand cannot be decoded, the opcode is one of the four with operands and the whole operation list fails |
| Nfs4.TruncatedAfterPrefix | src/proto/nfs4.rs:112-137 | a truncated operand after any number of well-formed operations still makes the whole operation list fail |
| Nfs4.OpsFailCompoundFails | src/proto/nfs4.rs:108-140 | COMPOUND arguments whose operation list does not decode do not decode, whatever the tag and minor version |
| Nfs4.TruncatedCompoundFails | src/proto/nfs4.rs:108-140 | COMPOUND arguments with a truncated operand after any well-formed operations do not decode |
| Nfs4.DecodeOps | src/proto/nfs4.rs:112-137 | a decoded operation list has as many operations as the count said, and those without operands carry no data |
| Nfs4.DecodeCompoundArgs | src/proto/nfs4.rs:108-140 | the decoded operation count fits the wire's `u32` |
| Nfs4.ExpectedOps | src/proto/nfs4.rs:114-137 | each operation a client sends becomes, in order, its opcode and the re-encoding of its operand |
| Nfs4.GetattrOperandRoundTrip | src/proto/nfs4.rs:116-119 | GETATTR's `opdata` is the encoding of the bitmap on the wire |
| Nfs4.PutfhOperandRoundTrip | src/proto/nfs4.rs:120-123 | PUTFH's `opdata` is the opaque encoding of the handle on the wire |
| Nfs4.LookupOperandRoundTrip | src/proto/nfs4.rs:124-127 | LOOKUP's `opdata` is the string encoding of the name |
| Nfs4.SetattrOperandRoundTrip | src/proto/nfs4.rs:128-133 | SETATTR's `opdata` is the encoded bitmap followed by the opaque-encoded values |
| Nfs4.OperandRoundTrip | src/proto/nfs4.rs:115-136 | every well-formed operand decodes to its own encoding and leaves the following bytes untouched |
| Nfs4.OpsRoundTrip | src/proto/nfs4.rs:112-137 | decoding the operations a client wrote gives, in wire order, each opcode with its re-encoded operand |
| Nfs4.CompoundArgsRoundTrip | src/proto/nfs4.rs:108-140 | decoding COMPOUND arguments a client wrote recovers the tag, the minor version and the operations |
| Nfs4.OpdataReadsBack | src/proto/nfs4.rs:116-123 | reading GETATTR's `opdata` gives the bitmap sent, and reading PUTFH's gives the handle sent |
| Nfs4.EncodeCompoundRes | src/proto/nfs4.rs:142-147 | the result header is the status word followed by the tag, which decodes back with nothing left over; its length is 8 plus the tag and padding, and the padding is zero |
| Vfs.UpdateAttr | src/vfs.rs:62-85 | an absent path gets size (default 0) and `now` for every time; a present one gets the new size and mtime, keeps ctime, and gets a new change id only when size or mtime changed; other paths are untouched |
| Vfs.UpdateAttrIdempotent | src/vfs.rs:61-85 | a second update with the same size at the same instant changes nothing |
| Vfs.RemoveAttr | src/vfs.rs:87-89 | removing a path deletes only that key and keeps every other entry |
| Vfs.RemoveUndoesUpdate | src/vfs.rs:62-89 | removing a path after updating it leaves the store as removing it alone would |
| Vfs.CreateFile | src/vfs.rs:146-150 | after creation the path has the given size and mtime `now`; a new path has change id and ctime `now`; nothing else changes |
| Vfs.ModifyFile | src/vfs.rs:152-155 | after modification the path has the new size and mtime `now`, an existing entry keeps its ctime, and nothing else changes |
| Vfs.CreateDir | src/vfs.rs:157-160 | a directory is recorded with size 0 and mtime `now`; nothing else changes |
| Vfs.RemoveEntry | src/vfs.rs:162-165 | removing an entry deletes exactly that key and keeps every other entry |
| Vfs.NewMemVfs | src/vfs.rs:41-59 | a new file system has the fixed root handle and one entry, "/", created as a directory at `now` |
| Vfs.ReplyMask | src/vfs.rs:105-137 | the reply's bits are exactly the requested bits among type, expire type, change, size and filehandle, in increasing order |
| Vfs.ReplyValues | src/vfs.rs:112-139 | the values are those of the reply's bits, concatenated in the fixed order type, expire type, change, size, filehandle |
| Vfs.ReplyValuesMatchMask | src/vfs.rs:112-139 | the values the five checks append are the values of the reply mask, whatever the request's order |
| Vfs.GetattrRoot | src/vfs.rs:99-144 | the reply is the bitmap of the reply's bits followed by their values as opaque data |
| Vfs.GetattrRootReadsBack | src/vfs.rs:99-144 | a client reads back a mask marking exactly the requested supported bits, then the values, with nothing after them |
| Vfs.GetattrDependsOnlyOnMarkedBits | src/vfs.rs:105-110 | requests that mark the same bits get the same reply, so words beyond the request's length count as unset |
| Vfs.GetattrEmptyRequest | src/vfs.rs:139-143 | an empty request gets a one-zero-word bitmap and no values |
| Vfs.GetattrEchoesSupportedRequest | src/vfs.rs:105-141 | a request built from supported bits gets back a bitmap equal to the request |
| Vfs.GetattrTypeAndSize | src/vfs.rs:112-127 | asking for type and size gets the request bitmap back, then NF4DIR and the size as a `u64` |
| Vfs.MemGetattr | src/vfs.rs:99-101 | the in-memory file system answers exactly when "/" has an entry, with that entry's attributes |
| Errors.CodeReadsBack | src/error.rs:64-105 | every status number identifies its status |
| Errors.CodesDistinct | src/error.rs:64-105 | no two statuses share a number |
| Errors.ToStatus | src/error.rs:107-123 | an error is never reported as success, and it becomes a server fault exactly when it has no status of its own |
| Errors.ErrnoStatusCodes | src/error.rs:110-119 | I/O, permission, not-found, exists, invalid, no-space, read-only and stale errors go out as 5, 13, 2, 17, 22, 28, 30 and 70 |
| Errors.NfsStatusCodes | src/error.rs:114-120 | not-supported is 10004, a bad stateid is reported as a bad handle (10001), and protocol and grace errors are server faults (10006) |
| Errors.StatusIgnoresMessage | src/error.rs:109-121 | an error's message does not affect its status |
| Server.PutfhHandle | src/server.rs:98-102 | PUTFH installs the bytes after the operand's length word when the operand holds them with padding, and the empty handle otherwise |
| Server.GetattrRequest | src/server.rs:122-126 | GETATTR asks for the words after the operand's count when the operand holds that many, and for no words otherwise |
| Server.OperandsReachTheEvaluator | src/server.rs:98-101 | PUTFH sees the handle the client sent and GETATTR the bitmap the client sent |
| Server.Step | src/server.rs:92-143 | one operation aborts exactly when the backend fails; otherwise it appends the reference result, sets the overall status on failure, and moves the handle |
| Server.EvalOps | src/server.rs:76-144 | there is one result per operation with the same opcode, the overall status is the last failure's, and the final handle follows the puts |
| Server.EvalMatchesExpected | src/server.rs:91-144 | the i-th result is the reference result for the i-th operation under the handle left by the operations before it |
| Server.EvalAbortsIff | src/server.rs:91-144 | evaluation fails exactly when some operation's backend call fails |
| Server.ReliableBackendCompletes | src/server.rs:91-144 | with a backend that never fails, every COMPOUND is evaluated to the end |
| Server.MemBackendReliable | src/vfs.rs:95-101 | the in-memory file system's root handle is its stored handle, and its GETATTR never fails once "/" has attributes |
| Server.MemBackendCompletes | src/server.rs:91-144 | the in-memory file system with "/" evaluates every COMPOUND to the end |
| Server.LastFailureOk | src/server.rs:79-142 | the overall status is OK exactly when every operation succeeded |
| Server.LastFailureWitness | src/server.rs:117-142 | a failing overall status is the status of an operation after which every operation succeeded |
| Server.NoPutNoHandle | src/server.rs:76-105 | without PUTROOTFH or PUTFH there is no current handle |
| Server.NoHandleFails | src/server.rs:106-134 | GETFH or GETATTR before any put gets NOFILEHANDLE (10020) with an empty payload and makes the COMPOUND fail |
| Server.GetfhAfterPutrootfh | src/server.rs:93-115 | GETFH right after PUTROOTFH returns the opaque encoding of the backend's root handle |
| Server.UnsupportedOpFails | src/server.rs:136-142 | any other opcode gets NOTSUPP (10004) with an empty payload, keeps the handle, and makes the COMPOUND fail |
| Server.EncodeResults | src/server.rs:81-87 | the result array takes at least two words per result |
| Server.EncodeResultsAppend | src/server.rs:81-87 | results are written one after another: two runs of results encode as the concatenation of their encodings |
| Server.EncodeOneResult | src/server.rs:82-86 | one result is its opcode word, its status word and its payload, as written by `write_resop` |
| Server.CompoundReplyReadsBack | src/server.rs:146-153 | a client reads the overall status, the tag it sent, and the result count from a COMPOUND reply |
| Server.ReplyBody | src/server.rs:64-157 | only a COMPOUND to the right program and version can fail; it fails with a decode fault exactly when its arguments do not decode, and otherwise with a backend fault |
| Server.ReplyFor | src/server.rs:57-157 | a call whose header does not decode ends the connection; a reply starts with the 24-byte success header for the call's xid |
| Server.ReplyEchoesXid | src/server.rs:57-157 | a call whose header does not decode ends the connection; otherwise every reply starts with a success header echoing the xid; a wrong program or version adds 10007, NULL adds nothing, an unknown procedure adds 10004, and only a COMPOUND can fail |
| Server.ReplyToCompoundCall | src/server.rs:57-153 | a COMPOUND a client wrote, with any credential and verifier, is answered with the evaluation of exactly the operations it sent, or ends the connection if the backend fails |
| Server.Serve | src/server.rs:45-164 | everything written starts with a header carrying the last-fragment bit |
| Server.ServeAnswersEachCall | src/server.rs:45-164 | a framed call is answered with its framed reply, which reads back whole, before the next call is read |
| Server.FiveOpCompound | src/server.rs:91-144 | PUTROOTFH, GETFH, GETATTR, LOOKUP, SETATTR on a reliable backend give statuses 0, 0, 0, 10004, 10004 and overall 10004 |
| Server.SampleCompound | src/server.rs:91-144 | on the in-memory file system that COMPOUND returns the root handle and the attributes of "/" for the bitmap sent |
| Server.GetfhWithoutHandle | src/server.rs:106-120 | GETFH alone yields NOFILEHANDLE and no handle |

## Left out

- Socket I/O and the tokio runtime are not modelled: the accept loop, task spawning, `read_exact` and `write_all`. `Server.Serve` works on the bytes a client sends.
- The 64 KiB receive buffer and its resizing are not modelled. They affect only allocation.
- Multi-fragment records are not modelled. The server ignores the last-fragment bit and treats every record as one fragment, and so does the model.
- DashMap, `Arc` and `async_trait` concurrency are not modelled. The store is a plain map and the `Vfs` trait is the `Backend` datatype, so interleaving between connections is not covered.
- `SystemTime::now()` is a `now` parameter.
- Logging, `Display`/`thiserror` formatting, configuration, the binaries and the crate wiring are not modelled.
- The wrapped `std::io::Error` and `serde_json::Error` in `NfsError` are reduced to bare variants.
- `as u32` truncation of lengths and counts is excluded by the types. `Opaque`, `U32Array` and `XdrString` are shorter than 2^32, and a COMPOUND has fewer than 2^32 operations, so `res_count` cannot wrap. The one truncation that can happen, the record length, is `Rpc.RecordLengthOverflow`.
- Allocation failure for a huge declared length (`vec![0; len]`) is not modelled. The model reads from the bytes at hand.
- Decoding failures are reduced to `None` or `Fault`. The I/O error kinds and messages are not kept.
- A panic in `getattr_root` when "/" has no entry is modelled as a backend failure. Like a `?` error, it ends the connection.
- The names in `NfsOp4` other than the six dispatched or parsed opcodes are not modelled. Their operations are treated by value like any other unrecognised opcode.
- `MemVfs::get_attr` is not modelled. It is a test accessor, and the store map plays its role.
- Rpc.ReplyHeaderRoundTrip: holds only for an empty verifier. The encoder writes `verf_len` but no verifier body, while the decoder skips `verf_len` bytes, so a header with a nonzero `verf_len` does not read back.
- Rpc.DecodeReplyHeader: its own contract gives only the bytes consumed. What it recovers is stated by `Rpc.ReplyHeaderRoundTrip`.
- Nfs4.DecodeCompoundArgs: its own contract gives only the bound on the operation count. What it recovers is stated by `Nfs4.CompoundArgsRoundTrip`.
- Rpc.DecodeCallHeader: its own contract gives the six fixed fields and the bytes consumed. Skipping the credential and verifier is stated by `Rpc.CallHeaderRoundTrip`.
- `Vfs.Handle` limits a file handle to 128 bytes, the NFSv4 maximum handle size. The source stores any `Vec<u8>`; the handle it builds has 13 bytes.
