/** The six protocol messages, the inner confirm body, their registry of types and lengths, and error codes. */
module Message {
  import opened Bytes
  import opened Types

  const VERSION: u16 := 0x0002
  const FRAME_HEADER_LEN := 8
  const MAX_DATA_FIELD := 65552
  const MIN_DATA_FIELD := 16
  const MAX_FRAME_PAYLOAD := 65568
  const MIN_FRAME_PAYLOAD := 32
  const SEALED_LEN := 103
  const CONFIRM_BODY_LEN := 87

  type Sealed = s: seq<byte> | |s| == SEALED_LEN witness Zeros(SEALED_LEN)

  datatype ErrorCode =
    | BookMismatchCode | ExhaustedCode | ClientAheadCode
    | TagInvalidCode | SegmentBinding | NonceMismatch | SeqReplay
    | BadVersion | BadLength | TrailingBytes | BadEnum | UnknownMsgType | WrongDirectionCode
    | IssuePointerMismatch | FrameTruncated | BadOrder | EpochMismatch | SeqUnexpected
    | InternalCode | IoErrorCode | PersistenceUnverified | CsprngFailure

  datatype MsgType = HelloType | ArbitrateType | IssueRequestType | ConfirmC2sType | ConfirmS2cType | DataType {
    function Wire(): u16 {
      match this
      case HelloType => 0x0001
      case ArbitrateType => 0x0002
      case IssueRequestType => 0x0003
      case ConfirmC2sType => 0x0004
      case ConfirmS2cType => 0x0005
      case DataType => 0x0006
    }

    /** None for data, which goes both ways. */
    function SendDirection(): Option<Direction> {
      match this
      case HelloType => Some(ClientToServer)
      case IssueRequestType => Some(ClientToServer)
      case ConfirmC2sType => Some(ClientToServer)
      case ArbitrateType => Some(ServerToClient)
      case ConfirmS2cType => Some(ServerToClient)
      case DataType => None
    }

    function PayloadLenRange(): (nat, nat) {
      match this
      case HelloType => (44, 44)
      case ArbitrateType => (25, 25)
      case IssueRequestType => (40, 40)
      case ConfirmC2sType => (139, 139)
      case ConfirmS2cType => (139, 139)
      case DataType => (MIN_FRAME_PAYLOAD, MAX_FRAME_PAYLOAD)
    }

    predicate LengthOk(n: nat) {
      PayloadLenRange().0 <= n <= PayloadLenRange().1
    }
  }

  function MsgTypeFromWire(v: u16): Option<MsgType> {
    if v == 1 then Some(HelloType)
    else if v == 2 then Some(ArbitrateType)
    else if v == 3 then Some(IssueRequestType)
    else if v == 4 then Some(ConfirmC2sType)
    else if v == 5 then Some(ConfirmS2cType)
    else if v == 6 then Some(DataType)
    else None
  }

  datatype ArbitrateResult = ResultOk | ServerAhead | Exhausted | BookMismatch | ClientAhead {
    function Wire(): byte {
      match this
      case ResultOk => 0
      case ServerAhead => 1
      case Exhausted => 2
      case BookMismatch => 3
      case ClientAhead => 4
    }
  }

  function ArbitrateResultFromWire(v: byte): Option<ArbitrateResult> {
    if v == 0 then Some(ResultOk)
    else if v == 1 then Some(ServerAhead)
    else if v == 2 then Some(Exhausted)
    else if v == 3 then Some(BookMismatch)
    else if v == 4 then Some(ClientAhead)
    else None
  }

  datatype Message =
    | Hello(bookId: Bytes16, clientNonce: Bytes16, clientPointer: u64, features: u32)
    | Arbitrate(serverNonce: Bytes16, serverPointer: u64, result: ArbitrateResult)
    | IssueRequest(chosenPointer: u64, clientNonce: Bytes16, serverNonce: Bytes16)
    | ConfirmC2s(segmentIndex: u64, sessionNonce: Bytes16, epoch: u32, seqNo: u64, sealed: Sealed)
    | ConfirmS2c(segmentIndex: u64, sessionNonce: Bytes16, epoch: u32, seqNo: u64, sealed: Sealed)
    | Data(epoch: u32, seqNo: u64, data: seq<byte>)
  {
    function Type(): MsgType {
      match this
      case Hello(_, _, _, _) => HelloType
      case Arbitrate(_, _, _) => ArbitrateType
      case IssueRequest(_, _, _) => IssueRequestType
      case ConfirmC2s(_, _, _, _, _) => ConfirmC2sType
      case ConfirmS2c(_, _, _, _, _) => ConfirmS2cType
      case Data(_, _, _) => DataType
    }
  }

  datatype ConfirmBody = ConfirmBody(
    bookId: Bytes16, segmentIndex: u64, clientNonce: Bytes16, serverNonce: Bytes16,
    direction: Direction, epoch: u32, seqNo: u64, msgType: u16, purpose: Bytes14)
}
