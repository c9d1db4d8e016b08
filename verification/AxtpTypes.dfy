/** Machine integers, protocol constants and payload records shared by the whole model. */
module AxtpTypes {

  type uint8 = x: int | 0 <= x < 0x100
  type uint16 = x: int | 0 <= x < 0x1_0000
  type uint32 = x: int | 0 <= x < 0x1_0000_0000

  type Bytes = seq<uint8>

  datatype Option<+T> = None | Some(value: T) {
    function GetOr(default: T): T {
      if Some? then value else default
    }
  }

  // Error codes are transported as 16-bit values; any value can be received.
  type ErrorCode = uint16
  const SUCCESS: ErrorCode := 0x0000
  const NOT_SUPPORTED: ErrorCode := 0x0003
  const CANCELED: ErrorCode := 0x0007
  const INVALID_ARGUMENT: ErrorCode := 0x000A
  const INTERNAL_ERROR: ErrorCode := 0x000E
  const UNAVAILABLE: ErrorCode := 0x000F
  const CONTROL_PAYLOAD_INVALID: ErrorCode := 0x0022
  const CONTROL_OPEN_REQUIRED: ErrorCode := 0x0024
  const CONTROL_OPEN_REJECTED: ErrorCode := 0x0025
  const CONTROL_NEGOTIATION_FAILED: ErrorCode := 0x0027
  const CONTROL_HEARTBEAT_TIMEOUT: ErrorCode := 0x002D
  const RPC_PAYLOAD_INVALID: ErrorCode := 0x0033
  const RPC_RESPONSE_TIMEOUT: ErrorCode := 0x003E
  const RPC_BATCH_UNSUPPORTED: ErrorCode := 0x003F

  type ControlOpcode = uint8
  const OPEN: ControlOpcode := 0x01
  const ACCEPT: ControlOpcode := 0x02
  const HEARTBEAT: ControlOpcode := 0x04
  const HEARTBEAT_ACK: ControlOpcode := 0x05
  const CLOSE: ControlOpcode := 0x0A
  const CLOSE_ACK: ControlOpcode := 0x0B
  const PING: ControlOpcode := 0x0E
  const PONG: ControlOpcode := 0x0F

  type RpcOp = uint8
  const HELLO: RpcOp := 0x00
  const IDENTIFY: RpcOp := 0x02
  const IDENTIFIED: RpcOp := 0x03
  const REIDENTIFY: RpcOp := 0x04
  const EVENT: RpcOp := 0x06
  const REQUEST: RpcOp := 0x07
  const REQUEST_RESPONSE: RpcOp := 0x08
  const REQUEST_BATCH: RpcOp := 0x09
  const REQUEST_BATCH_RESPONSE: RpcOp := 0x0A

  /** Routing metadata; `src` and `dst` swap in a response. */
  datatype EndpointMetadata = EndpointMetadata(src: Option<string>, dst: Option<string>) {
    predicate Present() {
      src.Some? || dst.Some?
    }

    /** An endpoint that is named but empty. */
    predicate Malformed() {
      src == Some("") || dst == Some("")
    }

    function Reversed(): EndpointMetadata {
      EndpointMetadata(dst, src)
    }
  }

  datatype SourceProtocol = AxtpV1 | JsonRpc
  datatype RpcEncoding = Json | Cbor | Msgpack | JsonBinary
  datatype BodyEncoding = NoBody | Tlv8 | Tlv16

  datatype PayloadMeta = PayloadMeta(
    sourceProtocol: SourceProtocol,
    requestId: uint32,
    jsonSid: string,
    localGeneratedResponse: bool,
    endpoint: EndpointMetadata)

  datatype RpcPayload = RpcPayload(
    encoding: RpcEncoding,
    op: RpcOp,
    requestId: uint32,
    methodOrEventId: uint32,
    statusCode: ErrorCode,
    bodyEncoding: BodyEncoding,
    meta: PayloadMeta,
    body: Bytes)

  /** Options of a CONTROL handshake; a `has` flag says that the field was present. */
  datatype ControlTlvOptions = ControlTlvOptions(
    valid: bool,
    hasSessionId: bool,
    hasProtocolVersion: bool,
    hasMaxFrameSize: bool,
    hasMtu: bool,
    hasSupportedPayloadTypes: bool,
    hasSupportedRpcEncodings: bool,
    hasSelectedRpcEncoding: bool,
    hasHeartbeatIntervalMs: bool,
    hasAckMode: bool,
    sessionId: uint32,
    protocolVersion: uint8,
    maxFrameSize: uint32,
    mtu: uint32,
    supportedPayloadTypes: uint8,
    supportedRpcEncodings: uint8,
    selectedRpcEncoding: uint8,
    heartbeatIntervalMs: uint32,
    ackMode: uint8)

  const DEFAULT_OPTIONS: ControlTlvOptions := ControlTlvOptions(
    true, false, false, false, false, false, false, false, false, false,
    0, 1, 4096, 4096, 0x07, 0x09, 0x01, 1000, 0)

  datatype ControlPayload = ControlPayload(
    opcode: ControlOpcode,
    controlId: uint16,
    statusCode: ErrorCode,
    tlv: ControlTlvOptions,
    body: Bytes)

  /** The numbers these names stand for on the wire. */
  lemma WireNumbers()
    ensures [OPEN, ACCEPT, HEARTBEAT, HEARTBEAT_ACK] == [1, 2, 4, 5]
    ensures [CLOSE, CLOSE_ACK, PING, PONG] == [10, 11, 14, 15]
    ensures [HELLO, IDENTIFY, IDENTIFIED, REIDENTIFY, EVENT] == [0, 2, 3, 4, 6]
    ensures [REQUEST, REQUEST_RESPONSE, REQUEST_BATCH, REQUEST_BATCH_RESPONSE] == [7, 8, 9, 10]
    ensures [SUCCESS, NOT_SUPPORTED, CANCELED, INVALID_ARGUMENT, INTERNAL_ERROR, UNAVAILABLE] == [0, 3, 7, 10, 14, 15]
    ensures [CONTROL_PAYLOAD_INVALID, CONTROL_OPEN_REQUIRED, CONTROL_OPEN_REJECTED] == [34, 36, 37]
    ensures [CONTROL_NEGOTIATION_FAILED, CONTROL_HEARTBEAT_TIMEOUT] == [39, 45]
    ensures [RPC_PAYLOAD_INVALID, RPC_RESPONSE_TIMEOUT, RPC_BATCH_UNSUPPORTED] == [51, 62, 63]
  {
  }
}
