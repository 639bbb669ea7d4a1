/** The server's error type and the NFSv4 status each error is reported as. */
module Errors {
  import opened Wrappers

  /** `NfsError`. Variants that carry a message keep it as a string; the
      wrapped I/O and JSON errors are reduced to their variant. */
  datatype NfsError =
    | Io
    | Serialization
    | Xdr(xdrMsg: string)
    | Protocol(protocolMsg: string)
    | InvalidArgument(argMsg: string)
    | PermissionDenied
    | NotFound
    | AlreadyExists
    | NotSupported
    | NoSpace
    | ReadOnlyFs
    | StaleHandle
    | BadStateid
    | Grace
    | ServerFault
    | Network(networkMsg: string)
    | Config(configMsg: string)
    | Auth(authMsg: string)

  /** `Nfs4Status`, the NFSv4.2 status codes the server knows. */
  datatype Nfs4Status =
    | Ok | Perm | Noent | IoStatus | Nxio | Access | Exist | Xdev | Nodev | Notdir | Isdir
    | Inval | Fbig | Nospc | Rofs | Mlink | Nametoolong | Notempty | Dquot | Stale
    | Badhandle | BadCookie | Notsupp | Toosmall | Serverfault | Badtype | Delay | SameSession
    | BadLabel | OffloadDenied | OffloadNoReqs | PartnerNoAuth | PartnerNotsupp | UnionNotsupp | WrongLfs
  {
    /** The status's number on the wire. */
    function Code(): nat {
      match this
      case Ok => 0
      case Perm => 1
      case Noent => 2
      case IoStatus => 5
      case Nxio => 6
      case Access => 13
      case Exist => 17
      case Xdev => 18
      case Nodev => 19
      case Notdir => 20
      case Isdir => 21
      case Inval => 22
      case Fbig => 27
      case Nospc => 28
      case Rofs => 30
      case Mlink => 31
      case Nametoolong => 63
      case Notempty => 66
      case Dquot => 69
      case Stale => 70
      case Badhandle => 10001
      case BadCookie => 10003
      case Notsupp => 10004
      case Toosmall => 10005
      case Serverfault => 10006
      case Badtype => 10007
      case Delay => 10008
      case SameSession => 10018
      case BadLabel => 10093
      case OffloadDenied => 10091
      case OffloadNoReqs => 10094
      case PartnerNoAuth => 10089
      case PartnerNotsupp => 10088
      case UnionNotsupp => 10090
      case WrongLfs => 10092
    }
  }

  /** The status a number on the wire stands for, if any. */
  function FromCode(n: nat): Option<Nfs4Status> {
    if n == 0 then Some(Ok)
    else if n == 1 then Some(Perm)
    else if n == 2 then Some(Noent)
    else if n == 5 then Some(IoStatus)
    else if n == 6 then Some(Nxio)
    else if n == 13 then Some(Access)
    else if n == 17 then Some(Exist)
    else if n == 18 then Some(Xdev)
    else if n == 19 then Some(Nodev)
    else if n == 20 then Some(Notdir)
    else if n == 21 then Some(Isdir)
    else if n == 22 then Some(Inval)
    else if n == 27 then Some(Fbig)
    else if n == 28 then Some(Nospc)
    else if n == 30 then Some(Rofs)
    else if n == 31 then Some(Mlink)
    else if n == 63 then Some(Nametoolong)
    else if n == 66 then Some(Notempty)
    else if n == 69 then Some(Dquot)
    else if n == 70 then Some(Stale)
    else if n == 10001 then Some(Badhandle)
    else if n == 10003 then Some(BadCookie)
    else if n == 10004 then Some(Notsupp)
    else if n == 10005 then Some(Toosmall)
    else if n == 10006 then Some(Serverfault)
    else if n == 10007 then Some(Badtype)
    else if n == 10008 then Some(Delay)
    else if n == 10018 then Some(SameSession)
    else if n == 10093 then Some(BadLabel)
    else if n == 10091 then Some(OffloadDenied)
    else if n == 10094 then Some(OffloadNoReqs)
    else if n == 10089 then Some(PartnerNoAuth)
    else if n == 10088 then Some(PartnerNotsupp)
    else if n == 10090 then Some(UnionNotsupp)
    else if n == 10092 then Some(WrongLfs)
    else None
  }

  /** Reading a status's number back gives the status: the numbers are
      distinct, as `#[repr(u32)]` requires of the discriminants. */
  lemma CodeReadsBack(s: Nfs4Status)
    ensures FromCode(s.Code()) == Some(s)
  {
  }

  /** No two statuses share a number. */
  lemma CodesDistinct(a: Nfs4Status, b: Nfs4Status)
    requires a.Code() == b.Code()
    ensures a == b
  {
    CodeReadsBack(a);
    CodeReadsBack(b);
  }

  /** The errors that have a status of their own. */
  predicate HasOwnStatus(e: NfsError) {
    e.Io? || e.PermissionDenied? || e.NotFound? || e.AlreadyExists? || e.NotSupported?
      || e.NoSpace? || e.ReadOnlyFs? || e.StaleHandle? || e.BadStateid? || e.InvalidArgument?
  }

  /** `From<NfsError> for Nfs4Status`. An error is never reported as success,
      and exactly the errors without a status of their own become a server
      fault. */
  function ToStatus(e: NfsError): (s: Nfs4Status)
    ensures s != Ok && s.Code() != 0
    ensures s == Serverfault <==> !HasOwnStatus(e)
  {
    match e
    case Io => IoStatus
    case PermissionDenied => Access
    case NotFound => Noent
    case AlreadyExists => Exist
    case NotSupported => Notsupp
    case NoSpace => Nospc
    case ReadOnlyFs => Rofs
    case StaleHandle => Stale
    case BadStateid => Badhandle
    case InvalidArgument(_) => Inval
    case _ => Serverfault
  }

  /** The mapped errors that have a POSIX counterpart go out with its errno
      number. */
  lemma ErrnoStatusCodes(msg: string)
    ensures ToStatus(Io).Code() == 5
    ensures ToStatus(PermissionDenied).Code() == 13
    ensures ToStatus(NotFound).Code() == 2
    ensures ToStatus(AlreadyExists).Code() == 17
    ensures ToStatus(InvalidArgument(msg)).Code() == 22
    ensures ToStatus(NoSpace).Code() == 28
    ensures ToStatus(ReadOnlyFs).Code() == 30
    ensures ToStatus(StaleHandle).Code() == 70
  {
  }

  /** The other errors go out with NFSv4's own numbers; a bad stateid is
      reported as a bad file handle, and the rest as a server fault. */
  lemma NfsStatusCodes(msg: string)
    ensures ToStatus(NotSupported).Code() == 10004
    ensures ToStatus(BadStateid).Code() == 10001
    ensures ToStatus(Protocol(msg)).Code() == 10006
    ensures ToStatus(Grace).Code() == 10006
  {
  }

  /** The message an error carries plays no part in its status. */
  lemma StatusIgnoresMessage(e: NfsError, msg: string)
    ensures e.Xdr? ==> ToStatus(e) == ToStatus(Xdr(msg))
    ensures e.Protocol? ==> ToStatus(e) == ToStatus(Protocol(msg))
    ensures e.InvalidArgument? ==> ToStatus(e) == ToStatus(InvalidArgument(msg))
    ensures e.Network? ==> ToStatus(e) == ToStatus(Network(msg))
    ensures e.Config? ==> ToStatus(e) == ToStatus(Config(msg))
    ensures e.Auth? ==> ToStatus(e) == ToStatus(Auth(msg))
  {
  }
}
