/** The in-memory file system behind the server: the attribute store, its
    update rules, and the GETATTR encoder for the root directory. The store is
    a plain map and the clock is a parameter `now`, in seconds. */
module Vfs {
  import opened Wrappers
  import opened Xdr
  import opened Nfs4

  /** Largest file handle, NFS4_FHSIZE of section 4.2.1 of RFC 7530. */
  const NFS4_FHSIZE: nat := 128

  /** A root file handle. */
  type Handle = h: Bytes | |h| <= NFS4_FHSIZE

  datatype FileAttr = FileAttr(changeid: u64, size: u64, mtime: u64, ctime: u64)

  /** Attributes by path. */
  type Store = map<string, FileAttr>

  /** `MemVfs`: the root handle and the attribute store. */
  datatype MemVfs = MemVfs(rootFh: Handle, attrs: Store)

  /** The bytes of "nfsrs-root-fh". */
  const ROOT_FH: Handle := [110, 102, 115, 114, 115, 45, 114, 111, 111, 116, 45, 102, 104]

  // ------------------------------------------------------------------
  // Attribute store updates
  // ------------------------------------------------------------------

  /** Whether `update_attr` would alter the existing entry `e`: a new size
      that differs from the stored one, or a modification time other than now. */
  predicate Changes(e: FileAttr, size: Option<u64>, now: u64) {
    (size.Some? && size.value != e.size) || e.mtime != now
  }

  /** `update_attr`: an absent path gets a fresh entry stamped `now` (size 0 if
      none is given); a present one gets the new size and modification time,
      and a new change id only when one of those actually changed. */
  function UpdateAttr(store: Store, path: string, size: Option<u64>, now: u64): (r: Store)
    ensures r.Keys == store.Keys + {path}
    ensures forall p | p in store && p != path :: r[p] == store[p]
    ensures path !in store ==> r[path] == FileAttr(now, size.GetOr(0), now, now)
    ensures path in store ==>
      var e, e' := store[path], r[path];
      && e'.size == size.GetOr(e.size)
      && e'.mtime == now
      && e'.ctime == e.ctime
      && (Changes(e, size, now) ==> e'.changeid == now)
      && (!Changes(e, size, now) <==> e' == e)
  {
    if path in store then
      var e := store[path];
      var (e1, changed1) :=
        if size.Some? && e.size != size.value then (e.(size := size.value), true) else (e, false);
      var (e2, changed2) :=
        if e1.mtime != now then (e1.(mtime := now), true) else (e1, changed1);
      var e3 := if changed2 then e2.(changeid := now) else e2;
      store[path := e3]
    else
      store[path := FileAttr(now, size.GetOr(0), now, now)]
  }

  /** Repeating an update at the same instant changes nothing more: the second
      call is coalesced away. */
  lemma UpdateAttrIdempotent(store: Store, path: string, size: Option<u64>, now: u64)
    ensures var once := UpdateAttr(store, path, size, now);
      UpdateAttr(once, path, size, now) == once
  {
    var once := UpdateAttr(store, path, size, now);
    assert !Changes(once[path], size, now);
  }

  /** `remove_attr`: the path's entry is gone and every other entry is as it was. */
  function RemoveAttr(store: Store, path: string): (r: Store)
    ensures path !in r
    ensures forall p | p != path :: (p in r <==> p in store)
    ensures forall p | p in r :: r[p] == store[p]
  {
    store - {path}
  }

  /** Removing a path undoes any update of it. */
  lemma RemoveUndoesUpdate(store: Store, path: string, size: Option<u64>, now: u64)
    ensures RemoveAttr(UpdateAttr(store, path, size, now), path) == RemoveAttr(store, path)
  {
  }

  /** `create_file`: the file exists afterwards with the given size, modified now. */
  function CreateFile(store: Store, path: string, size: u64, now: u64): (r: Store)
    ensures path in r && r[path].size == size && r[path].mtime == now
    ensures path !in store ==> r[path].changeid == now && r[path].ctime == now
    ensures RemoveAttr(r, path) == RemoveAttr(store, path)
  {
    UpdateAttr(store, path, Some(size), now)
  }

  /** `modify_file`: as `create_file`, with the new size. */
  function ModifyFile(store: Store, path: string, newSize: u64, now: u64): (r: Store)
    ensures path in r && r[path].size == newSize && r[path].mtime == now
    ensures path in store ==> r[path].ctime == store[path].ctime
    ensures RemoveAttr(r, path) == RemoveAttr(store, path)
  {
    UpdateAttr(store, path, Some(newSize), now)
  }

  /** `create_dir`: a directory is recorded as an entry of size 0. */
  function CreateDir(store: Store, path: string, now: u64): (r: Store)
    ensures path in r && r[path].size == 0 && r[path].mtime == now
    ensures RemoveAttr(r, path) == RemoveAttr(store, path)
  {
    UpdateAttr(store, path, Some(0), now)
  }

  /** `remove_entry`. */
  function RemoveEntry(store: Store, path: string): (r: Store)
    ensures path !in r && r.Keys == store.Keys - {path}
    ensures forall p | p in r :: r[p] == store[p]
  {
    RemoveAttr(store, path)
  }

  /** `MemVfs::new`: the fixed root handle and one entry for "/", created now.
      That entry is what creating the directory "/" in an empty store gives. */
  function NewMemVfs(now: u64): (m: MemVfs)
    ensures m.rootFh == ROOT_FH
    ensures m.attrs == CreateDir(map[], "/", now)
  {
    MemVfs(ROOT_FH, map["/" := FileAttr(now, 0, now, now)])
  }

  // ------------------------------------------------------------------
  // GETATTR on the root
  // ------------------------------------------------------------------

  /** The attributes the root can report, in the order their values are written. */
  predicate Supported(c: u32) {
    c == FATTR4_TYPE || c == FATTR4_FH_EXPIRE_TYPE || c == FATTR4_CHANGE || c == FATTR4_SIZE || c == FATTR4_FILEHANDLE
  }

  /** The encoded value of one attribute of the root. */
  function AttrValue(fh: Handle, root: FileAttr, bit: u32): (r: Bytes)
    ensures |r| <= 136
  {
    if bit == FATTR4_TYPE then EncodeU32(NF4DIR)
    else if bit == FATTR4_FH_EXPIRE_TYPE then EncodeU32(FH4_PERSISTENT)
    else if bit == FATTR4_CHANGE then EncodeU64(root.changeid)
    else if bit == FATTR4_SIZE then EncodeU64(root.size)
    else if bit == FATTR4_FILEHANDLE then EncodeOpaque(fh)
    else []
  }

  /** The values of `bits`, concatenated in the order of `bits`. */
  function AttrValues(fh: Handle, root: FileAttr, bits: seq<u32>): (r: Bytes)
    ensures |r| <= 136 * |bits|
  {
    if |bits| == 0 then [] else AttrValue(fh, root, bits[0]) + AttrValues(fh, root, bits[1..])
  }

  lemma {:induction false} AttrValuesAppend(fh: Handle, root: FileAttr, a: seq<u32>, b: seq<u32>)
    ensures AttrValues(fh, root, a + b) == AttrValues(fh, root, a) + AttrValues(fh, root, b)
  {
    if |a| > 0 {
      assert (a + b)[1..] == a[1..] + b;
      AttrValuesAppend(fh, root, a[1..], b);
    } else {
      assert a + b == b;
    }
  }

  /** `[bit]` when the request marks `bit`, else nothing. */
  function IfRequested(req: seq<u32>, bit: u32): (r: seq<u32>)
    ensures forall c :: c in r <==> c == bit && BitmapHas(req, bit)
  {
    if BitmapHas(req, bit) then [bit] else []
  }

  predicate Increasing(m: seq<u32>) {
    forall i, j | 0 <= i < j < |m| :: m[i] < m[j]
  }

  /** Appending a larger attribute, if requested, keeps a mask increasing. */
  lemma AppendIfRequested(m: seq<u32>, req: seq<u32>, bit: u32)
    requires Increasing(m) && forall e | e in m :: e < bit
    ensures Increasing(m + IfRequested(req, bit))
    ensures forall e | e in m + IfRequested(req, bit) :: e <= bit
    ensures forall c :: c in m + IfRequested(req, bit) <==> c in m || (c == bit && BitmapHas(req, bit))
  {
    var r := m + IfRequested(req, bit);
    forall i, j | 0 <= i < j < |r|
      ensures r[i] < r[j]
    {
      if j >= |m| {
        assert r[i] == m[i] && r[i] in m;
      }
    }
  }

  /** The reply mask of `getattr_root`: the five supported attributes checked
      in turn, each kept when requested. It holds exactly the requested
      supported attributes, in increasing order. */
  function ReplyMask(req: seq<u32>): (m: seq<u32>)
    ensures forall c: u32 :: c in m <==> Supported(c) && BitmapHas(req, c)
    ensures Increasing(m)
  {
    ReplyMaskFacts(req);
    IfRequested(req, FATTR4_TYPE) + IfRequested(req, FATTR4_FH_EXPIRE_TYPE) + IfRequested(req, FATTR4_CHANGE)
      + IfRequested(req, FATTR4_SIZE) + IfRequested(req, FATTR4_FILEHANDLE)
  }

  lemma ReplyMaskFacts(req: seq<u32>)
    ensures var m := IfRequested(req, FATTR4_TYPE) + IfRequested(req, FATTR4_FH_EXPIRE_TYPE)
      + IfRequested(req, FATTR4_CHANGE) + IfRequested(req, FATTR4_SIZE) + IfRequested(req, FATTR4_FILEHANDLE);
      && (forall c: u32 :: c in m <==> Supported(c) && BitmapHas(req, c))
      && Increasing(m)
  {
    var m1 := IfRequested(req, FATTR4_TYPE);
    var m2 := m1 + IfRequested(req, FATTR4_FH_EXPIRE_TYPE);
    var m3 := m2 + IfRequested(req, FATTR4_CHANGE);
    var m4 := m3 + IfRequested(req, FATTR4_SIZE);
    var m5 := m4 + IfRequested(req, FATTR4_FILEHANDLE);
    AppendIfRequested([], req, FATTR4_TYPE);
    assert [] + m1 == m1;
    AppendIfRequested(m1, req, FATTR4_FH_EXPIRE_TYPE);
    AppendIfRequested(m2, req, FATTR4_CHANGE);
    AppendIfRequested(m3, req, FATTR4_SIZE);
    AppendIfRequested(m4, req, FATTR4_FILEHANDLE);
    forall c: u32
      ensures c in m5 <==> Supported(c) && BitmapHas(req, c)
    {
      assert c in m5 <==> c in m4 || (c == FATTR4_FILEHANDLE && BitmapHas(req, c));
      assert c in m4 <==> c in m3 || (c == FATTR4_SIZE && BitmapHas(req, c));
      assert c in m3 <==> c in m2 || (c == FATTR4_CHANGE && BitmapHas(req, c));
      assert c in m2 <==> c in m1 || (c == FATTR4_FH_EXPIRE_TYPE && BitmapHas(req, c));
    }
  }

  /** The value of `bit` when the request marks it, else nothing. */
  function ValueIfRequested(fh: Handle, root: FileAttr, req: seq<u32>, bit: u32): (r: Bytes)
    ensures |r| <= 136
  {
    if BitmapHas(req, bit) then AttrValue(fh, root, bit) else []
  }

  /** The attribute list of `getattr_root`: the values appended by the same
      five tests. */
  function ReplyValues(fh: Handle, root: FileAttr, req: seq<u32>): (r: Opaque)
    ensures r == AttrValues(fh, root, ReplyMask(req))
  {
    var a := ValueIfRequested(fh, root, req, FATTR4_TYPE);
    var b := ValueIfRequested(fh, root, req, FATTR4_FH_EXPIRE_TYPE);
    var c := ValueIfRequested(fh, root, req, FATTR4_CHANGE);
    var d := ValueIfRequested(fh, root, req, FATTR4_SIZE);
    var e := ValueIfRequested(fh, root, req, FATTR4_FILEHANDLE);
    ReplyValuesMatchMask(fh, root, req);
    a + b + c + d + e
  }

  lemma ReplyValuesMatchMask(fh: Handle, root: FileAttr, req: seq<u32>)
    ensures AttrValues(fh, root, ReplyMask(req))
         == ValueIfRequested(fh, root, req, FATTR4_TYPE) + ValueIfRequested(fh, root, req, FATTR4_FH_EXPIRE_TYPE)
          + ValueIfRequested(fh, root, req, FATTR4_CHANGE) + ValueIfRequested(fh, root, req, FATTR4_SIZE)
          + ValueIfRequested(fh, root, req, FATTR4_FILEHANDLE)
  {
    var m1, m2, m3, m4, m5 := IfRequested(req, FATTR4_TYPE), IfRequested(req, FATTR4_FH_EXPIRE_TYPE),
      IfRequested(req, FATTR4_CHANGE), IfRequested(req, FATTR4_SIZE), IfRequested(req, FATTR4_FILEHANDLE);
    forall bit: u32 ensures AttrValues(fh, root, IfRequested(req, bit)) == ValueIfRequested(fh, root, req, bit) {
      if BitmapHas(req, bit) {
        assert AttrValues(fh, root, [bit]) == AttrValue(fh, root, bit) + AttrValues(fh, root, []);
        assert AttrValue(fh, root, bit) + [] == AttrValue(fh, root, bit);
      }
    }
    AttrValuesAppend(fh, root, m1 + m2 + m3 + m4, m5);
    AttrValuesAppend(fh, root, m1 + m2 + m3, m4);
    AttrValuesAppend(fh, root, m1 + m2, m3);
    AttrValuesAppend(fh, root, m1, m2);
  }

  /** `getattr_root`: the reply mask and the attribute list encoded as an
      fattr4. The values follow the mask's (fixed, increasing) order, whatever
      order the request named the attributes in. */
  function GetattrRoot(fh: Handle, root: FileAttr, req: seq<u32>): (r: Bytes)
    ensures r == EncodeU32Array(BitmapWith(ReplyMask(req))) + EncodeOpaque(AttrValues(fh, root, ReplyMask(req)))
  {
    EncodeFattr4(BitmapWith(ReplyMask(req)), ReplyValues(fh, root, req))
  }

  /** A client decoding the reply finds a mask that marks exactly the
      requested attributes the root supports, then the attribute list, and
      nothing after it. */
  lemma GetattrRootReadsBack(fh: Handle, root: FileAttr, req: seq<u32>)
    ensures var r := GetattrRoot(fh, root, req);
      && DecodeU32Array(r).Some?
      && var (mask, rest) := DecodeU32Array(r).value;
      && (forall c: u32 :: BitmapHas(mask, c) <==> Supported(c) && BitmapHas(req, c))
      && DecodeOpaque(rest) == Some((ReplyValues(fh, root, req), []))
  {
    var m := BitmapWith(ReplyMask(req));
    var vals := ReplyValues(fh, root, req);
    U32ArrayRoundTrip(m, EncodeOpaque(vals));
    OpaqueRoundTrip(vals, []);
    assert EncodeOpaque(vals) + [] == EncodeOpaque(vals);
  }

  /** Two requests that mark the same attributes get the same reply: the
      order in which a client listed the attributes and any extra all-zero
      words make no difference. */
  lemma GetattrDependsOnlyOnMarkedBits(fh: Handle, root: FileAttr, req1: seq<u32>, req2: seq<u32>)
    requires forall c: u32 :: BitmapHas(req1, c) <==> BitmapHas(req2, c)
    ensures GetattrRoot(fh, root, req1) == GetattrRoot(fh, root, req2)
  {
    forall b: u32 ensures IfRequested(req1, b) == IfRequested(req2, b) {
      assert BitmapHas(req1, b) == BitmapHas(req2, b);
    }
  }

  /** A request too short to reach any supported attribute's word asks for
      nothing: the reply is a one-word empty mask and an empty list. */
  lemma GetattrEmptyRequest(fh: Handle, root: FileAttr)
    ensures GetattrRoot(fh, root, []) == EncodeU32Array([0]) + EncodeOpaque([])
  {
    assert ReplyMask([]) == [];
    assert MaxOf([]) == 0;
    assert BitmapWith([]) == [0] by {
      var bm := BitmapWith([]);
      assert |bm| == 1;
      forall c: u32 ensures BitmapHas(bm, c) <==> BitmapHas([0], c) {
        ZeroHasNoBits(c % 32);
      }
      BitmapExtensional(bm, [0]);
    }
  }

  /** A request that names only supported attributes gets back a mask equal
      to the request. */
  lemma GetattrEchoesSupportedRequest(fh: Handle, root: FileAttr, bits: seq<u32>)
    requires forall i | 0 <= i < |bits| :: Supported(bits[i])
    ensures BitmapWith(ReplyMask(BitmapWith(bits))) == BitmapWith(bits)
  {
    var req := BitmapWith(bits);
    var mask := ReplyMask(req);
    var reply := BitmapWith(mask);
    assert MaxOf(bits) < 32 by {
      if |bits| > 0 {
        var i :| 0 <= i < |bits| && bits[i] == MaxOf(bits);
        assert Supported(bits[i]);
      }
    }
    assert MaxOf(mask) < 32 by {
      if |mask| > 0 {
        assert Supported(MaxOf(mask));
      }
    }
    forall c: u32 ensures BitmapHas(reply, c) <==> BitmapHas(req, c) {
      assert BitmapHas(req, c) <==> c in bits;
    }
    BitmapExtensional(reply, req);
  }

  /** Asking for the type and the size gets exactly those two back: the mask
      as requested, the directory type word and then the size. */
  lemma GetattrTypeAndSize(fh: Handle, root: FileAttr)
    ensures GetattrRoot(fh, root, BitmapWith([FATTR4_TYPE, FATTR4_SIZE]))
         == EncodeU32Array(BitmapWith([FATTR4_TYPE, FATTR4_SIZE])) + EncodeOpaque(EncodeU32(NF4DIR) + EncodeU64(root.size))
  {
    var req := BitmapWith([FATTR4_TYPE, FATTR4_SIZE]);
    assert IfRequested(req, FATTR4_TYPE) == [FATTR4_TYPE];
    assert IfRequested(req, FATTR4_FH_EXPIRE_TYPE) == [];
    assert IfRequested(req, FATTR4_CHANGE) == [];
    assert IfRequested(req, FATTR4_SIZE) == [FATTR4_SIZE];
    assert IfRequested(req, FATTR4_FILEHANDLE) == [];
    assert ReplyMask(req) == [FATTR4_TYPE, FATTR4_SIZE];
    assert AttrValues(fh, root, [FATTR4_TYPE, FATTR4_SIZE])
        == EncodeU32(NF4DIR) + (EncodeU64(root.size) + []);
    assert EncodeU64(root.size) + [] == EncodeU64(root.size);
  }

  // ------------------------------------------------------------------
  // MemVfs as the server's backend
  // ------------------------------------------------------------------

  /** `MemVfs::root_fh`: always the handle it was built with. */
  function MemRootFh(m: MemVfs): Opaque {
    m.rootFh
  }

  /** `MemVfs::getattr_root`: the reply for the attributes of "/"; `None`
      where the source panics because "/" has no entry. */
  function MemGetattr(m: MemVfs, req: seq<u32>): (r: Option<Bytes>)
    ensures r.Some? <==> "/" in m.attrs
    ensures r.Some? ==> r.value == GetattrRoot(m.rootFh, m.attrs["/"], req)
  {
    if "/" in m.attrs then Some(GetattrRoot(m.rootFh, m.attrs["/"], req)) else None
  }
}
