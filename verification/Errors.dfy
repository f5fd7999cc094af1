/** Library errors and the error codes that travel on the wire. */
module Errors {
  import opened Words

  datatype Option<+T> = None | Some(value: T)

  datatype Result<+T> = Success(value: T) | Failure(error: IpcError)

  /** Errors of the system library; variants without a row of their own in the
      conversion are `OtherSysError`. */
  datatype SysError =
    | SysIndexOutOfBound | SysItemMissing | SysLengthNotEnough(len: nat) | SysEncoding
    | SysWaitFailure | SysInvalidFd | SysOtherEndClosed | SysMaxVmsSpawned | SysMaxFdsCreated
    | OtherSysError(code: u64)

  datatype IpcError =
    | CkbSysError(sys: SysError)
    | UnexpectedEof | IncompleteVlqSeq | DecodeVlqOverflow | ReadVlqError
    | SerializeError | DeserializeError | SliceWriteError | ReadUntilError
    | ReadExactError | BufReaderError | GeneralIoError
    | ProtocolError(code: ProtocolErrorCode)

  datatype ProtocolErrorCode =
    | Ok
    | IndexOutOfBoundCode | ItemMissingCode | LengthNotEnoughCode | InvalidDataCode
    | WaitFailureCode | InvalidFdCode | OtherEndClosedCode | MaxVmsSpawnedCode | MaxFdsCreatedCode
    | UnknownErrorCode | UnknownSysErrorCode | UnexpectedEofCode | IncompleteVlqSeqCode
    | DecodeVlqOverflowCode | ReadVlqErrorCode | SerializeErrorCode | DeserializeErrorCode
    | GeneralIoErrorCode | EndOfErrorCode

  /** The discriminant of a code: `code as u64`. */
  function Discriminant(c: ProtocolErrorCode): u64 {
    match c
    case Ok => 0
    case IndexOutOfBoundCode => 1
    case ItemMissingCode => 2
    case LengthNotEnoughCode => 3
    case InvalidDataCode => 4
    case WaitFailureCode => 5
    case InvalidFdCode => 6
    case OtherEndClosedCode => 7
    case MaxVmsSpawnedCode => 8
    case MaxFdsCreatedCode => 9
    case UnknownErrorCode => 20
    case UnknownSysErrorCode => 21
    case UnexpectedEofCode => 22
    case IncompleteVlqSeqCode => 23
    case DecodeVlqOverflowCode => 24
    case ReadVlqErrorCode => 25
    case SerializeErrorCode => 26
    case DeserializeErrorCode => 27
    case GeneralIoErrorCode => 28
    case EndOfErrorCode => 29
  }

  /** `From<u64> for ProtocolErrorCode`; None stands for the panic of `unwrap`. */
  function CodeFromU64(e: u64): Option<ProtocolErrorCode> {
    match e
    case 0 => Some(Ok)
    case 1 => Some(IndexOutOfBoundCode)
    case 2 => Some(ItemMissingCode)
    case 3 => Some(LengthNotEnoughCode)
    case 4 => Some(InvalidDataCode)
    case 5 => Some(WaitFailureCode)
    case 6 => Some(InvalidFdCode)
    case 7 => Some(OtherEndClosedCode)
    case 8 => Some(MaxVmsSpawnedCode)
    case 9 => Some(MaxFdsCreatedCode)
    case 20 => Some(UnknownErrorCode)
    case 21 => Some(UnknownSysErrorCode)
    case 22 => Some(UnexpectedEofCode)
    case 23 => Some(IncompleteVlqSeqCode)
    case 24 => Some(DecodeVlqOverflowCode)
    case 25 => Some(ReadVlqErrorCode)
    case 26 => Some(SerializeErrorCode)
    case 27 => Some(DeserializeErrorCode)
    case 28 => Some(GeneralIoErrorCode)
    case 29 => Some(EndOfErrorCode)
    case _ => None
  }

  /** `From<IpcError> for ProtocolErrorCode`. */
  function CodeFromError(err: IpcError): ProtocolErrorCode {
    match err
    case CkbSysError(sys) => (
      match sys
      case SysIndexOutOfBound => IndexOutOfBoundCode
      case SysItemMissing => ItemMissingCode
      case SysLengthNotEnough(_) => LengthNotEnoughCode
      case SysEncoding => InvalidDataCode
      case SysWaitFailure => WaitFailureCode
      case SysInvalidFd => InvalidFdCode
      case SysOtherEndClosed => OtherEndClosedCode
      case SysMaxVmsSpawned => MaxVmsSpawnedCode
      case SysMaxFdsCreated => MaxFdsCreatedCode
      case OtherSysError(_) => UnknownSysErrorCode)
    case UnexpectedEof => UnexpectedEofCode
    case IncompleteVlqSeq => IncompleteVlqSeqCode
    case DecodeVlqOverflow => DecodeVlqOverflowCode
    case ReadVlqError => ReadVlqErrorCode
    case SerializeError => SerializeErrorCode
    case DeserializeError => DeserializeErrorCode
    case SliceWriteError => GeneralIoErrorCode
    case BufReaderError => GeneralIoErrorCode
    case ReadUntilError => GeneralIoErrorCode
    case ReadExactError => GeneralIoErrorCode
    case GeneralIoError => GeneralIoErrorCode
    case ProtocolError(e) => e
  }

  /** Every code that a library puts on the wire comes back as itself, and the wire
      conversion panics exactly on the unassigned values. */
  lemma CodesSurviveTheWire(c: ProtocolErrorCode, e: u64)
    ensures CodeFromU64(Discriminant(c)) == Some(c)
    ensures CodeFromU64(e).Some? <==> e <= 9 || 20 <= e <= 29
    ensures CodeFromU64(e).Some? ==> Discriminant(CodeFromU64(e).value) == e
  {
  }

  /** An error is reported as success by exactly one value: `ProtocolError(Ok)`. */
  lemma OnlyProtocolOkIsSilent(err: IpcError)
    ensures Discriminant(CodeFromError(err)) == 0 <==> err == ProtocolError(Ok)
  {
  }
}
