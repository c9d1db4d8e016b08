/** The TLV body of OPEN and ACCEPT: negotiation defaults, encoder and tolerant decoder. */
module ControlTlvCodec {
  import opened AxtpTypes
  import opened Numbers

  const SESSION_ID: uint8 := 0x01
  const PROTOCOL_VERSION: uint8 := 0x02
  const MAX_FRAME_SIZE: uint8 := 0x04
  const MTU: uint8 := 0x06
  const SUPPORTED_PAYLOAD_TYPES: uint8 := 0x07
  const SUPPORTED_RPC_ENCODINGS: uint8 := 0x08
  const HEARTBEAT_INTERVAL: uint8 := 0x0A
  const ACK_MODE: uint8 := 0x0B
  const SELECTED_RPC_ENCODING: uint8 := 0x1E

  function DefaultsForOpen(): ControlTlvOptions {
    DEFAULT_OPTIONS.(hasMaxFrameSize := true, hasSupportedPayloadTypes := true, hasSupportedRpcEncodings := true,
                     hasHeartbeatIntervalMs := true, hasAckMode := true)
  }

  function DefaultsForAccept(requested: ControlTlvOptions): ControlTlvOptions {
    DEFAULT_OPTIONS.(
      hasSessionId := true,
      hasMaxFrameSize := true,
      hasMtu := requested.hasMtu,
      hasSupportedPayloadTypes := true,
      hasSelectedRpcEncoding := true,
      hasHeartbeatIntervalMs := true,
      hasAckMode := true,
      sessionId := if requested.hasSessionId then requested.sessionId else 0,
      maxFrameSize := if requested.hasMaxFrameSize then requested.maxFrameSize else 4096,
      mtu := if requested.hasMtu then requested.mtu else 4096,
      supportedPayloadTypes := if requested.hasSupportedPayloadTypes then requested.supportedPayloadTypes else 0x07,
      valid := !(requested.hasSupportedRpcEncodings && requested.supportedRpcEncodings % 2 == 0),
      heartbeatIntervalMs := if requested.hasHeartbeatIntervalMs then requested.heartbeatIntervalMs else 1000,
      ackMode := if requested.hasAckMode then requested.ackMode else 0)
  }

  // One TLV record: a tag and its value, written in 1, 2 or 4 big-endian bytes.

  datatype Field = Field(tag: uint8, value: Bytes)

  function U8(tag: uint8, v: uint8): Field {
    Field(tag, [v])
  }

  function U32(tag: uint8, v: uint32): Field {
    Field(tag, [v / 0x100_0000, v / 0x1_0000 % 0x100, v / 0x100 % 0x100, v % 0x100])
  }

  function U16OrU32(tag: uint8, v: uint32): Field {
    if v <= 0xFFFF then Field(tag, [v / 0x100, v % 0x100]) else U32(tag, v)
  }

  function When(present: bool, field: Field): seq<Field> {
    if present then [field] else []
  }

  function SessionFields(o: ControlTlvOptions, accept: bool): (fields: seq<Field>)
    ensures forall f | f in fields :: |f.value| <= 4
  {
    When(accept && o.hasSessionId, U32(SESSION_ID, o.sessionId)) +
    When(o.hasProtocolVersion, U8(PROTOCOL_VERSION, o.protocolVersion))
  }

  function LimitFields(o: ControlTlvOptions): (fields: seq<Field>)
    ensures forall f | f in fields :: |f.value| <= 4
  {
    When(o.hasMaxFrameSize, U16OrU32(MAX_FRAME_SIZE, o.maxFrameSize)) +
    When(o.hasMtu, U16OrU32(MTU, o.mtu))
  }

  function CapabilityFields(o: ControlTlvOptions, accept: bool): (fields: seq<Field>)
    ensures forall f | f in fields :: |f.value| <= 4
  {
    When(o.hasSupportedPayloadTypes, U8(SUPPORTED_PAYLOAD_TYPES, o.supportedPayloadTypes)) +
    When(!accept && o.hasSupportedRpcEncodings, U8(SUPPORTED_RPC_ENCODINGS, o.supportedRpcEncodings)) +
    When(accept && o.hasSelectedRpcEncoding, U8(SELECTED_RPC_ENCODING, o.selectedRpcEncoding))
  }

  function LivenessFields(o: ControlTlvOptions): (fields: seq<Field>)
    ensures forall f | f in fields :: |f.value| <= 4
  {
    When(o.hasHeartbeatIntervalMs, U16OrU32(HEARTBEAT_INTERVAL, o.heartbeatIntervalMs)) +
    When(o.hasAckMode, U8(ACK_MODE, o.ackMode))
  }

  /** The records of `o` in wire order. */
  function Fields(o: ControlTlvOptions, accept: bool): (fields: seq<Field>)
    ensures forall f | f in fields :: |f.value| <= 4
  {
    SessionFields(o, accept) + LimitFields(o) + CapabilityFields(o, accept) + LivenessFields(o)
  }

  function Write(fields: seq<Field>): Bytes {
    if fields == [] then []
    else [fields[0].tag, |fields[0].value| % 0x100] + fields[0].value + Write(fields[1..])
  }

  function Encode(o: ControlTlvOptions, accept: bool): Bytes {
    Write(Fields(o, accept))
  }

  /** The number in a record of 1, 2 or 4 bytes; other lengths hold none. */
  function ReadUnsigned(value: Bytes): Option<nat> {
    if |value| == 1 || |value| == 2 || |value| == 4 then Some(FromBigEndian(value)) else None
  }

  predicate Fits(v: Option<nat>, max: nat) {
    v.Some? && v.value <= max
  }

  function DecodeField(o: ControlTlvOptions, f: Field): ControlTlvOptions {
    Store(o, f.tag, ReadUnsigned(f.value))
  }

  /** Stores one record: an unusable value clears the field's flag and the validity of the whole body. */
  function Store(o: ControlTlvOptions, tag: uint8, v: Option<nat>): ControlTlvOptions {
    var byte, word, long := Fits(v, 0xFF), Fits(v, 0xFFFF), Fits(v, 0xFFFF_FFFF);
    if tag == SESSION_ID then
      o.(hasSessionId := long, sessionId := if long then v.value else o.sessionId, valid := o.valid && long)
    else if tag == PROTOCOL_VERSION then
      o.(hasProtocolVersion := v == Some(1), protocolVersion := if byte then v.value else o.protocolVersion,
         valid := o.valid && v == Some(1))
    else if tag == MAX_FRAME_SIZE then
      o.(hasMaxFrameSize := word, maxFrameSize := if word then v.value else o.maxFrameSize, valid := o.valid && word)
    else if tag == MTU then
      o.(hasMtu := word, mtu := if word then v.value else o.mtu, valid := o.valid && word)
    else if tag == SUPPORTED_PAYLOAD_TYPES then
      o.(hasSupportedPayloadTypes := byte, supportedPayloadTypes := if byte then v.value else o.supportedPayloadTypes,
         valid := o.valid && byte)
    else if tag == SUPPORTED_RPC_ENCODINGS then
      o.(hasSupportedRpcEncodings := byte, supportedRpcEncodings := if byte then v.value else o.supportedRpcEncodings,
         valid := o.valid && byte)
    else if tag == SELECTED_RPC_ENCODING then
      o.(hasSelectedRpcEncoding := byte, selectedRpcEncoding := if byte then v.value else o.selectedRpcEncoding,
         valid := o.valid && byte)
    else if tag == HEARTBEAT_INTERVAL then
      o.(hasHeartbeatIntervalMs := long, heartbeatIntervalMs := if long then v.value else o.heartbeatIntervalMs,
         valid := o.valid && long)
    else if tag == ACK_MODE then
      o.(hasAckMode := byte, ackMode := if byte then v.value else o.ackMode, valid := o.valid && byte)
    else o
  }

  function DecodeFrom(o: ControlTlvOptions, bytes: Bytes): ControlTlvOptions
    decreases |bytes|
  {
    if bytes == [] then o
    else if |bytes| < 2 || |bytes| - 2 < bytes[1] then o.(valid := false)
    else DecodeFrom(DecodeField(o, Field(bytes[0], bytes[2..2 + bytes[1]])), bytes[2 + bytes[1]..])
  }

  function Decode(bytes: Bytes): ControlTlvOptions {
    DecodeFrom(DEFAULT_OPTIONS, bytes)
  }

  /** The decoding loop over the reader position. */
  method DecodeBytes(bytes: Bytes) returns (options: ControlTlvOptions)
    ensures options == Decode(bytes)
  {
    options := DEFAULT_OPTIONS;
    var at := 0;
    while at < |bytes|
      invariant 0 <= at <= |bytes|
      invariant DecodeFrom(options, bytes[at..]) == Decode(bytes)
    {
      var rest := bytes[at..];
      if |rest| < 2 || |rest| - 2 < rest[1] {
        options := options.(valid := false);
        return;
      }
      var end := at + 2 + bytes[at + 1];
      assert rest[2..2 + rest[1]] == bytes[at + 2..end];
      assert rest[2 + rest[1]..] == bytes[end..];
      options := DecodeField(options, Field(bytes[at], bytes[at + 2..end]));
      at := end;
    }
  }

  // What arrives when `o` is encoded and decoded.

  ghost predicate Sendable(o: ControlTlvOptions) {
    && (o.hasProtocolVersion ==> o.protocolVersion == 1)
    && (o.hasMaxFrameSize ==> o.maxFrameSize <= 0xFFFF)
    && (o.hasMtu ==> o.mtu <= 0xFFFF)
  }

  /** `o` without the fields that do not travel in this direction, their values back at the defaults. */
  ghost function Travelling(o: ControlTlvOptions, accept: bool): ControlTlvOptions {
    var d := DEFAULT_OPTIONS;
    o.(valid := true,
       hasSessionId := accept && o.hasSessionId,
       hasSupportedRpcEncodings := !accept && o.hasSupportedRpcEncodings,
       hasSelectedRpcEncoding := accept && o.hasSelectedRpcEncoding,
       sessionId := if accept && o.hasSessionId then o.sessionId else d.sessionId,
       protocolVersion := if o.hasProtocolVersion then o.protocolVersion else d.protocolVersion,
       maxFrameSize := if o.hasMaxFrameSize then o.maxFrameSize else d.maxFrameSize,
       mtu := if o.hasMtu then o.mtu else d.mtu,
       supportedPayloadTypes := if o.hasSupportedPayloadTypes then o.supportedPayloadTypes else d.supportedPayloadTypes,
       supportedRpcEncodings := if !accept && o.hasSupportedRpcEncodings then o.supportedRpcEncodings
                                else d.supportedRpcEncodings,
       selectedRpcEncoding := if accept && o.hasSelectedRpcEncoding then o.selectedRpcEncoding
                              else d.selectedRpcEncoding,
       heartbeatIntervalMs := if o.hasHeartbeatIntervalMs then o.heartbeatIntervalMs else d.heartbeatIntervalMs,
       ackMode := if o.hasAckMode then o.ackMode else d.ackMode)
  }

  function DecodeFields(o: ControlTlvOptions, fields: seq<Field>): ControlTlvOptions
    decreases |fields|
  {
    if fields == [] then o else DecodeFields(DecodeField(o, fields[0]), fields[1..])
  }

  lemma DecodeWritten(o: ControlTlvOptions, fields: seq<Field>)
    requires forall f | f in fields :: |f.value| < 0x100
    ensures DecodeFrom(o, Write(fields)) == DecodeFields(o, fields)
  {
    DecodeWrittenThen(o, fields, []);
    assert Write(fields) + [] == Write(fields);
  }

  lemma DecodeOne(o: ControlTlvOptions, f: Field, rest: Bytes)
    requires |f.value| < 0x100
    ensures DecodeFrom(o, [f.tag, |f.value|] + f.value + rest) == DecodeFrom(DecodeField(o, f), rest)
  {
    hide DecodeField;
    var bytes := [f.tag, |f.value|] + f.value + rest;
    assert bytes[0] == f.tag && bytes[1] == |f.value|;
    assert bytes[2..2 + bytes[1]] == f.value && bytes[2 + bytes[1]..] == rest;
  }

  lemma {:induction false} DecodeWrittenThen(o: ControlTlvOptions, fields: seq<Field>, tail: Bytes)
    requires forall f | f in fields :: |f.value| < 0x100
    ensures DecodeFrom(o, Write(fields) + tail) == DecodeFrom(DecodeFields(o, fields), tail)
    decreases |fields|
  {
    hide DecodeField, DecodeFrom;
    if fields == [] {
      assert Write(fields) + tail == tail;
    } else {
      var f := fields[0];
      assert Write(fields) + tail == [f.tag, |f.value|] + f.value + (Write(fields[1..]) + tail);
      DecodeOne(o, f, Write(fields[1..]) + tail);
      DecodeWrittenThen(DecodeField(o, f), fields[1..], tail);
    }
  }

  lemma {:induction false} DecodeFieldsAppend(o: ControlTlvOptions, fields: seq<Field>, present: bool, last: Field)
    ensures DecodeFields(o, fields + When(present, last)) ==
            (if present then DecodeField(DecodeFields(o, fields), last) else DecodeFields(o, fields))
    decreases |fields|
  {
    var all := fields + When(present, last);
    if fields == [] {
      assert all == When(present, last);
    } else {
      assert all[1..] == fields[1..] + When(present, last);
      DecodeFieldsAppend(DecodeField(o, fields[0]), fields[1..], present, last);
    }
  }

  lemma BigEndianSnoc(value: Bytes, b: uint8)
    ensures FromBigEndian(value + [b]) == FromBigEndian(value) * 0x100 + b
  {
    assert (value + [b])[..|value|] == value;
  }

  lemma BigEndianOf1(a: uint8)
    ensures FromBigEndian([a]) == a
  {
    BigEndianSnoc([], a);
    assert [] + [a] == [a];
  }

  lemma BigEndianOf2(a: uint8, b: uint8)
    ensures FromBigEndian([a, b]) == a * 0x100 + b
  {
    BigEndianOf1(a);
    BigEndianSnoc([a], b);
    assert [a] + [b] == [a, b];
  }

  lemma BigEndianOf4(a: uint8, b: uint8, c: uint8, d: uint8)
    ensures FromBigEndian([a, b, c, d]) == a * 0x100_0000 + b * 0x1_0000 + c * 0x100 + d
  {
    BigEndianOf2(a, b);
    BigEndianSnoc([a, b], c);
    BigEndianSnoc([a, b, c], d);
    assert [a, b] + [c] == [a, b, c] && [a, b, c] + [d] == [a, b, c, d];
  }

  lemma ReadU8(tag: uint8, v: uint8)
    ensures U8(tag, v).tag == tag && ReadUnsigned(U8(tag, v).value) == Some(v)
  {
    BigEndianOf1(v);
  }

  lemma FourBytes(v: uint32)
    ensures v / 0x100_0000 * 0x100_0000 + v / 0x1_0000 % 0x100 * 0x1_0000 + v / 0x100 % 0x100 * 0x100 + v % 0x100 == v
  {
    var high := v / 0x1_0000;
    assert v / 0x100_0000 == high / 0x100;
  }

  lemma ReadU32(tag: uint8, v: uint32)
    ensures U32(tag, v).tag == tag && ReadUnsigned(U32(tag, v).value) == Some(v)
  {
    hide FromBigEndian;
    FourBytes(v);
    BigEndianOf4(v / 0x100_0000, v / 0x1_0000 % 0x100, v / 0x100 % 0x100, v % 0x100);
  }

  lemma ReadU16OrU32(tag: uint8, v: uint32)
    ensures U16OrU32(tag, v).tag == tag && ReadUnsigned(U16OrU32(tag, v).value) == Some(v)
  {
    if v <= 0xFFFF {
      BigEndianOf2(v / 0x100, v % 0x100);
    } else {
      ReadU32(tag, v);
    }
  }

  // The state of the decoder after the records of each group of fields.

  ghost function Received(o: ControlTlvOptions, accept: bool): ControlTlvOptions {
    var limited := ReceivedLimits(ReceivedSession(DEFAULT_OPTIONS, o, accept), o);
    ReceivedLiveness(ReceivedCapabilities(limited, o, accept), o)
  }

  ghost function ReceivedSession(d: ControlTlvOptions, o: ControlTlvOptions, accept: bool): ControlTlvOptions {
    d.(hasSessionId := d.hasSessionId || (accept && o.hasSessionId),
       sessionId := if accept && o.hasSessionId then o.sessionId else d.sessionId,
       hasProtocolVersion := if o.hasProtocolVersion then o.protocolVersion == 1 else d.hasProtocolVersion,
       protocolVersion := if o.hasProtocolVersion then o.protocolVersion else d.protocolVersion,
       valid := d.valid && (o.hasProtocolVersion ==> o.protocolVersion == 1))
  }

  ghost function ReceivedLimits(d: ControlTlvOptions, o: ControlTlvOptions): ControlTlvOptions {
    var size, mtu := o.maxFrameSize <= 0xFFFF, o.mtu <= 0xFFFF;
    d.(hasMaxFrameSize := if o.hasMaxFrameSize then size else d.hasMaxFrameSize,
       maxFrameSize := if o.hasMaxFrameSize && size then o.maxFrameSize else d.maxFrameSize,
       hasMtu := if o.hasMtu then mtu else d.hasMtu,
       mtu := if o.hasMtu && mtu then o.mtu else d.mtu,
       valid := d.valid && (o.hasMaxFrameSize ==> size) && (o.hasMtu ==> mtu))
  }

  ghost function ReceivedCapabilities(d: ControlTlvOptions, o: ControlTlvOptions, accept: bool): ControlTlvOptions {
    d.(hasSupportedPayloadTypes := d.hasSupportedPayloadTypes || o.hasSupportedPayloadTypes,
       supportedPayloadTypes := if o.hasSupportedPayloadTypes then o.supportedPayloadTypes else d.supportedPayloadTypes,
       hasSupportedRpcEncodings := d.hasSupportedRpcEncodings || (!accept && o.hasSupportedRpcEncodings),
       supportedRpcEncodings := if !accept && o.hasSupportedRpcEncodings then o.supportedRpcEncodings
                                else d.supportedRpcEncodings,
       hasSelectedRpcEncoding := d.hasSelectedRpcEncoding || (accept && o.hasSelectedRpcEncoding),
       selectedRpcEncoding := if accept && o.hasSelectedRpcEncoding then o.selectedRpcEncoding
                              else d.selectedRpcEncoding)
  }

  ghost function ReceivedLiveness(d: ControlTlvOptions, o: ControlTlvOptions): ControlTlvOptions {
    d.(hasHeartbeatIntervalMs := d.hasHeartbeatIntervalMs || o.hasHeartbeatIntervalMs,
       heartbeatIntervalMs := if o.hasHeartbeatIntervalMs then o.heartbeatIntervalMs else d.heartbeatIntervalMs,
       hasAckMode := d.hasAckMode || o.hasAckMode,
       ackMode := if o.hasAckMode then o.ackMode else d.ackMode)
  }

  function Apply(d: ControlTlvOptions, present: bool, f: Field): ControlTlvOptions {
    if present then DecodeField(d, f) else d
  }

  lemma ApplyStores(d: ControlTlvOptions, present: bool, f: Field, v: nat)
    requires ReadUnsigned(f.value) == Some(v)
    ensures Apply(d, present, f) == if present then Store(d, f.tag, Some(v)) else d
  {
    hide ReadUnsigned, Store;
  }

  lemma DecodeTwo(d: ControlTlvOptions, p: bool, f: Field, q: bool, g: Field)
    ensures DecodeFields(d, When(p, f) + When(q, g)) == Apply(Apply(d, p, f), q, g)
  {
    DecodeFieldsAppend(d, [], p, f);
    assert [] + When(p, f) == When(p, f);
    DecodeFieldsAppend(d, When(p, f), q, g);
  }

  lemma ApplySession(d: ControlTlvOptions, present: bool, id: uint32)
    ensures Apply(d, present, U32(SESSION_ID, id)) ==
            d.(hasSessionId := present || d.hasSessionId, sessionId := if present then id else d.sessionId)
  {
    hide U32, ReadUnsigned, FromBigEndian;
    if present {
      ReadU32(SESSION_ID, id);
      ApplyStores(d, present, U32(SESSION_ID, id), id);
    }
  }

  lemma ApplyVersion(d: ControlTlvOptions, present: bool, v: uint8)
    ensures Apply(d, present, U8(PROTOCOL_VERSION, v)) ==
            d.(hasProtocolVersion := if present then v == 1 else d.hasProtocolVersion,
               protocolVersion := if present then v else d.protocolVersion,
               valid := d.valid && (present ==> v == 1))
  {
    hide U8, ReadUnsigned, FromBigEndian;
    if present {
      ReadU8(PROTOCOL_VERSION, v);
      ApplyStores(d, present, U8(PROTOCOL_VERSION, v), v);
    }
  }

  lemma DecodeSession(d: ControlTlvOptions, o: ControlTlvOptions, accept: bool)
    ensures DecodeFields(d, SessionFields(o, accept)) == ReceivedSession(d, o, accept)
  {
    hide DecodeFields, When, DecodeField, Store;
    var present := accept && o.hasSessionId;
    DecodeTwo(d, present, U32(SESSION_ID, o.sessionId), o.hasProtocolVersion, U8(PROTOCOL_VERSION, o.protocolVersion));
    ApplySession(d, present, o.sessionId);
    ApplyVersion(Apply(d, present, U32(SESSION_ID, o.sessionId)), o.hasProtocolVersion, o.protocolVersion);
  }

  lemma ApplyFrameSize(d: ControlTlvOptions, present: bool, v: uint32)
    ensures Apply(d, present, U16OrU32(MAX_FRAME_SIZE, v)) ==
            d.(hasMaxFrameSize := if present then v <= 0xFFFF else d.hasMaxFrameSize,
               maxFrameSize := if present && v <= 0xFFFF then v else d.maxFrameSize,
               valid := d.valid && (present ==> v <= 0xFFFF))
  {
    hide U16OrU32, ReadUnsigned, FromBigEndian;
    if present {
      ReadU16OrU32(MAX_FRAME_SIZE, v);
      ApplyStores(d, present, U16OrU32(MAX_FRAME_SIZE, v), v);
    }
  }

  lemma ApplyMtu(d: ControlTlvOptions, present: bool, v: uint32)
    ensures Apply(d, present, U16OrU32(MTU, v)) ==
            d.(hasMtu := if present then v <= 0xFFFF else d.hasMtu,
               mtu := if present && v <= 0xFFFF then v else d.mtu,
               valid := d.valid && (present ==> v <= 0xFFFF))
  {
    hide U16OrU32, ReadUnsigned, FromBigEndian;
    if present {
      ReadU16OrU32(MTU, v);
      ApplyStores(d, present, U16OrU32(MTU, v), v);
    }
  }

  lemma DecodeLimits(d: ControlTlvOptions, o: ControlTlvOptions)
    ensures DecodeFields(d, LimitFields(o)) == ReceivedLimits(d, o)
  {
    hide DecodeFields, When, DecodeField, Store;
    DecodeTwo(d, o.hasMaxFrameSize, U16OrU32(MAX_FRAME_SIZE, o.maxFrameSize), o.hasMtu, U16OrU32(MTU, o.mtu));
    ApplyFrameSize(d, o.hasMaxFrameSize, o.maxFrameSize);
    ApplyMtu(Apply(d, o.hasMaxFrameSize, U16OrU32(MAX_FRAME_SIZE, o.maxFrameSize)), o.hasMtu, o.mtu);
  }

  lemma ApplyPayloadTypes(d: ControlTlvOptions, present: bool, v: uint8)
    ensures Apply(d, present, U8(SUPPORTED_PAYLOAD_TYPES, v)) ==
            d.(hasSupportedPayloadTypes := present || d.hasSupportedPayloadTypes,
               supportedPayloadTypes := if present then v else d.supportedPayloadTypes)
  {
    hide U8, ReadUnsigned, FromBigEndian;
    if present {
      ReadU8(SUPPORTED_PAYLOAD_TYPES, v);
      ApplyStores(d, present, U8(SUPPORTED_PAYLOAD_TYPES, v), v);
    }
  }

  lemma ApplyRpcEncodings(d: ControlTlvOptions, present: bool, v: uint8)
    ensures Apply(d, present, U8(SUPPORTED_RPC_ENCODINGS, v)) ==
            d.(hasSupportedRpcEncodings := present || d.hasSupportedRpcEncodings,
               supportedRpcEncodings := if present then v else d.supportedRpcEncodings)
  {
    hide U8, ReadUnsigned, FromBigEndian;
    if present {
      ReadU8(SUPPORTED_RPC_ENCODINGS, v);
      ApplyStores(d, present, U8(SUPPORTED_RPC_ENCODINGS, v), v);
    }
  }

  lemma ApplySelectedEncoding(d: ControlTlvOptions, present: bool, v: uint8)
    ensures Apply(d, present, U8(SELECTED_RPC_ENCODING, v)) ==
            d.(hasSelectedRpcEncoding := present || d.hasSelectedRpcEncoding,
               selectedRpcEncoding := if present then v else d.selectedRpcEncoding)
  {
    hide U8, ReadUnsigned, FromBigEndian;
    if present {
      ReadU8(SELECTED_RPC_ENCODING, v);
      ApplyStores(d, present, U8(SELECTED_RPC_ENCODING, v), v);
    }
  }

  lemma ApplyAckMode(d: ControlTlvOptions, present: bool, v: uint8)
    ensures Apply(d, present, U8(ACK_MODE, v)) ==
            d.(hasAckMode := present || d.hasAckMode, ackMode := if present then v else d.ackMode)
  {
    hide U8, ReadUnsigned, FromBigEndian;
    if present {
      ReadU8(ACK_MODE, v);
      ApplyStores(d, present, U8(ACK_MODE, v), v);
    }
  }

  lemma ApplyHeartbeat(d: ControlTlvOptions, present: bool, v: uint32)
    ensures Apply(d, present, U16OrU32(HEARTBEAT_INTERVAL, v)) ==
            d.(hasHeartbeatIntervalMs := present || d.hasHeartbeatIntervalMs,
               heartbeatIntervalMs := if present then v else d.heartbeatIntervalMs)
  {
    hide U16OrU32, ReadUnsigned, FromBigEndian;
    if present {
      ReadU16OrU32(HEARTBEAT_INTERVAL, v);
      ApplyStores(d, present, U16OrU32(HEARTBEAT_INTERVAL, v), v);
    }
  }

  lemma DecodeCapabilities(d: ControlTlvOptions, o: ControlTlvOptions, accept: bool)
    ensures DecodeFields(d, CapabilityFields(o, accept)) == ReceivedCapabilities(d, o, accept)
  {
    hide DecodeFields, When, DecodeField, Store;
    var p1, f1 := o.hasSupportedPayloadTypes, U8(SUPPORTED_PAYLOAD_TYPES, o.supportedPayloadTypes);
    var p2, f2 := !accept && o.hasSupportedRpcEncodings, U8(SUPPORTED_RPC_ENCODINGS, o.supportedRpcEncodings);
    var p3, f3 := accept && o.hasSelectedRpcEncoding, U8(SELECTED_RPC_ENCODING, o.selectedRpcEncoding);
    DecodeThree(d, p1, f1, p2, f2, p3, f3);
    ApplyPayloadTypes(d, p1, o.supportedPayloadTypes);
    ApplyRpcEncodings(Apply(d, p1, f1), p2, o.supportedRpcEncodings);
    ApplySelectedEncoding(Apply(Apply(d, p1, f1), p2, f2), p3, o.selectedRpcEncoding);
  }

  lemma DecodeLiveness(d: ControlTlvOptions, o: ControlTlvOptions)
    ensures DecodeFields(d, LivenessFields(o)) == ReceivedLiveness(d, o)
  {
    hide DecodeFields, When, DecodeField, Store;
    var present, heartbeat := o.hasHeartbeatIntervalMs, U16OrU32(HEARTBEAT_INTERVAL, o.heartbeatIntervalMs);
    DecodeTwo(d, present, heartbeat, o.hasAckMode, U8(ACK_MODE, o.ackMode));
    ApplyHeartbeat(d, present, o.heartbeatIntervalMs);
    ApplyAckMode(Apply(d, present, heartbeat), o.hasAckMode, o.ackMode);
  }

  lemma DecodeThree(d: ControlTlvOptions, p1: bool, f1: Field, p2: bool, f2: Field, p3: bool, f3: Field)
    ensures DecodeFields(d, When(p1, f1) + When(p2, f2) + When(p3, f3)) ==
            Apply(Apply(Apply(d, p1, f1), p2, f2), p3, f3)
  {
    hide DecodeFields, When, DecodeField;
    DecodeTwo(d, p1, f1, p2, f2);
    DecodeFieldsAppend(d, When(p1, f1) + When(p2, f2), p3, f3);
  }

  lemma {:induction false} DecodeFieldsConcat(o: ControlTlvOptions, a: seq<Field>, b: seq<Field>)
    ensures DecodeFields(o, a + b) == DecodeFields(DecodeFields(o, a), b)
    decreases |a|
  {
    if a == [] {
      assert a + b == b;
    } else {
      assert (a + b)[1..] == a[1..] + b;
      DecodeFieldsConcat(DecodeField(o, a[0]), a[1..], b);
    }
  }

  /** A body survives encoding and decoding exactly when its values fit their records; an unfit one is flagged. */
  lemma RoundTrip(o: ControlTlvOptions, accept: bool)
    ensures Decode(Encode(o, accept)).valid <==> Sendable(o)
    ensures Sendable(o) ==> Decode(Encode(o, accept)) == Travelling(o, accept)
  {
    hide DecodeFields, DecodeFrom, Write, SessionFields, LimitFields, CapabilityFields, LivenessFields;
    hide ReceivedSession, ReceivedLimits, ReceivedCapabilities, ReceivedLiveness, Sendable, Travelling;
    var d := DEFAULT_OPTIONS;
    var session, limits := SessionFields(o, accept), LimitFields(o);
    var capabilities, liveness := CapabilityFields(o, accept), LivenessFields(o);
    DecodeWritten(d, Fields(o, accept));
    DecodeFieldsConcat(d, session + limits + capabilities, liveness);
    DecodeFieldsConcat(d, session + limits, capabilities);
    DecodeFieldsConcat(d, session, limits);
    DecodeSession(d, o, accept);
    var limited := ReceivedLimits(ReceivedSession(d, o, accept), o);
    DecodeLimits(ReceivedSession(d, o, accept), o);
    DecodeCapabilities(limited, o, accept);
    DecodeLiveness(ReceivedCapabilities(limited, o, accept), o);
    ReceivedTravels(o, accept);
  }

  lemma ReceivedTravels(o: ControlTlvOptions, accept: bool)
    ensures Received(o, accept).valid <==> Sendable(o)
    ensures Sendable(o) ==> Received(o, accept) == Travelling(o, accept)
  {
  }

  // Which bodies are valid at all.

  /** A number of 1, 2 or 4 bytes up to `max`. */
  predicate Holds(value: Bytes, max: nat) {
    |value| in {1, 2, 4} && FromBigEndian(value) <= max
  }

  /** What each known record must hold; any other tag is ignored, whatever it holds. */
  predicate Usable(tag: uint8, value: Bytes) {
    && (tag == SESSION_ID || tag == HEARTBEAT_INTERVAL ==> Holds(value, 0xFFFF_FFFF))
    && (tag == MAX_FRAME_SIZE || tag == MTU ==> Holds(value, 0xFFFF))
    && (tag in {SUPPORTED_PAYLOAD_TYPES, SUPPORTED_RPC_ENCODINGS, SELECTED_RPC_ENCODING, ACK_MODE} ==>
          Holds(value, 0xFF))
    && (tag == PROTOCOL_VERSION ==> Holds(value, 0xFF) && FromBigEndian(value) == 1)
  }

  /** Complete records, one after the other, each of them usable. */
  predicate WellFormed(bytes: Bytes)
    decreases |bytes|
  {
    bytes == [] ||
    (&& |bytes| >= 2 && |bytes| - 2 >= bytes[1]
     && Usable(bytes[0], bytes[2..2 + bytes[1]]) && WellFormed(bytes[2 + bytes[1]..]))
  }

  lemma FitsIff(value: Bytes, max: nat)
    ensures Fits(ReadUnsigned(value), max) <==> Holds(value, max)
    ensures ReadUnsigned(value) == Some(1) <==> |value| in {1, 2, 4} && FromBigEndian(value) == 1
  {
    hide FromBigEndian;
  }

  lemma StoreLong(o: ControlTlvOptions, tag: uint8, v: Option<nat>)
    requires tag == SESSION_ID || tag == HEARTBEAT_INTERVAL
    ensures Store(o, tag, v).valid <==> o.valid && Fits(v, 0xFFFF_FFFF)
  {
    if tag == SESSION_ID {
    }
  }

  lemma StoreWord(o: ControlTlvOptions, tag: uint8, v: Option<nat>)
    requires tag == MAX_FRAME_SIZE || tag == MTU
    ensures Store(o, tag, v).valid <==> o.valid && Fits(v, 0xFFFF)
  {
    if tag == MTU {
    }
  }

  lemma StoreCapability(o: ControlTlvOptions, tag: uint8, v: Option<nat>)
    requires tag == SUPPORTED_PAYLOAD_TYPES || tag == SUPPORTED_RPC_ENCODINGS || tag == SELECTED_RPC_ENCODING
    ensures Store(o, tag, v).valid <==> o.valid && Fits(v, 0xFF)
  {
    if tag == SUPPORTED_PAYLOAD_TYPES {
    } else if tag == SUPPORTED_RPC_ENCODINGS {
    }
  }

  lemma StoreAckMode(o: ControlTlvOptions, v: Option<nat>)
    ensures Store(o, ACK_MODE, v).valid <==> o.valid && Fits(v, 0xFF)
  {
  }

  lemma StoreVersion(o: ControlTlvOptions, v: Option<nat>)
    ensures Store(o, PROTOCOL_VERSION, v).valid <==> o.valid && v == Some(1)
  {
  }

  predicate Known(tag: uint8) {
    tag in {SESSION_ID, PROTOCOL_VERSION, MAX_FRAME_SIZE, MTU, SUPPORTED_PAYLOAD_TYPES, SUPPORTED_RPC_ENCODINGS,
            SELECTED_RPC_ENCODING, HEARTBEAT_INTERVAL, ACK_MODE}
  }

  /** A record whose tag is not known changes nothing. */
  lemma StoreUnknown(o: ControlTlvOptions, tag: uint8, v: Option<nat>)
    requires !Known(tag)
    ensures Store(o, tag, v) == o
  {
  }

  lemma StoreKeepsValidIff(o: ControlTlvOptions, tag: uint8, value: Bytes)
    ensures DecodeField(o, Field(tag, value)).valid <==> o.valid && Usable(tag, value)
  {
    FitsIff(value, 0xFF);
    FitsIff(value, 0xFFFF);
    FitsIff(value, 0xFFFF_FFFF);
    var v := ReadUnsigned(value);
    hide Store, FromBigEndian, ReadUnsigned;
    if tag == SESSION_ID || tag == HEARTBEAT_INTERVAL {
      StoreLong(o, tag, v);
    } else if tag == MAX_FRAME_SIZE || tag == MTU {
      StoreWord(o, tag, v);
    } else if tag == PROTOCOL_VERSION {
      StoreVersion(o, v);
    } else if tag == ACK_MODE {
      StoreAckMode(o, v);
    } else if Known(tag) {
      StoreCapability(o, tag, v);
    } else {
      StoreUnknown(o, tag, v);
    }
  }

  lemma {:induction false} StaysInvalid(o: ControlTlvOptions, bytes: Bytes)
    ensures DecodeFrom(o, bytes).valid <==> o.valid && WellFormed(bytes)
    decreases |bytes|
  {
    hide Usable, DecodeField;
    if |bytes| >= 2 && |bytes| - 2 >= bytes[1] {
      var f := Field(bytes[0], bytes[2..2 + bytes[1]]);
      StoreKeepsValidIff(o, f.tag, f.value);
      StaysInvalid(DecodeField(o, f), bytes[2 + bytes[1]..]);
    }
  }

  /** A body is valid exactly when it is well formed; a truncated record or a value that does not fit spoils it. */
  lemma ValidIff(bytes: Bytes)
    ensures Decode(bytes).valid <==> WellFormed(bytes)
  {
    StaysInvalid(DEFAULT_OPTIONS, bytes);
  }

  /** A body cut inside a record keeps what came before it and is invalid. */
  lemma TruncatedIsInvalid(fields: seq<Field>, tail: Bytes)
    requires forall f | f in fields :: |f.value| < 0x100
    requires tail != [] && (|tail| == 1 || |tail| - 2 < tail[1])
    ensures Decode(Write(fields) + tail) == DecodeFields(DEFAULT_OPTIONS, fields).(valid := false)
  {
    DecodeWrittenThen(DEFAULT_OPTIONS, fields, tail);
  }

  // What an OPEN offers and what an ACCEPT grants.

  /** An offer names the defaults of the protocol: 4096-byte frames, three payload types, JSON, no acknowledgements. */
  lemma OfferDefaults()
    ensures var o := DefaultsForOpen();
            && o.valid && o.hasMaxFrameSize && o.maxFrameSize == 4096
            && o.hasSupportedPayloadTypes && o.supportedPayloadTypes == 0x07
            && o.hasSupportedRpcEncodings && o.supportedRpcEncodings == 0x09
            && o.hasHeartbeatIntervalMs && o.heartbeatIntervalMs == 1000 && o.hasAckMode && o.ackMode == 0
            && !o.hasSessionId && !o.hasProtocolVersion && !o.hasMtu && !o.hasSelectedRpcEncoding
  {
  }

  /** The value of a field, or the default where the peer left it out. */
  function Asked(has: bool, value: nat, default: nat): nat {
    if has then value else default
  }

  /** An ACCEPT grants what was asked for or the default, always selects JSON, and needs JSON among what is offered. */
  lemma GrantsWhatWasAsked(o: ControlTlvOptions)
    ensures var g := DefaultsForAccept(o);
            && (g.valid <==> !o.hasSupportedRpcEncodings || o.supportedRpcEncodings % 2 == 1)
            && g.hasSelectedRpcEncoding && g.selectedRpcEncoding == 0x01
            && g.hasSessionId && g.sessionId == Asked(o.hasSessionId, o.sessionId, 0)
            && g.hasMaxFrameSize && g.maxFrameSize == Asked(o.hasMaxFrameSize, o.maxFrameSize, 4096)
            && (g.hasMtu <==> o.hasMtu) && g.mtu == Asked(o.hasMtu, o.mtu, 4096)
            && g.hasSupportedPayloadTypes
            && g.supportedPayloadTypes == Asked(o.hasSupportedPayloadTypes, o.supportedPayloadTypes, 0x07)
            && g.hasHeartbeatIntervalMs
            && g.heartbeatIntervalMs == Asked(o.hasHeartbeatIntervalMs, o.heartbeatIntervalMs, 1000)
            && g.hasAckMode && g.ackMode == Asked(o.hasAckMode, o.ackMode, 0)
            && !g.hasProtocolVersion && !g.hasSupportedRpcEncodings
  {
  }

  // The bytes of a body as they travel.

  function RecordBytes(f: Field): Bytes {
    [f.tag, |f.value| % 0x100] + f.value
  }

  lemma RecordsAre(tag: uint8, byte: uint8, long: uint32)
    ensures RecordBytes(U8(tag, byte)) == [tag, 1, byte]
    ensures RecordBytes(U32(tag, long)) ==
            [tag, 4, long / 0x100_0000, long / 0x1_0000 % 0x100, long / 0x100 % 0x100, long % 0x100]
    ensures RecordBytes(U16OrU32(tag, long)) ==
            if long < 0x1_0000 then [tag, 2, long / 0x100, long % 0x100] else RecordBytes(U32(tag, long))
  {
  }

  lemma WriteOne(f: Field)
    ensures Write([f]) == RecordBytes(f)
  {
    assert [f][1..] == [];
  }

  lemma WriteMore(f: Field, rest: seq<Field>)
    ensures Write([f] + rest) == RecordBytes(f) + Write(rest)
  {
    assert ([f] + rest)[1..] == rest;
  }

  lemma OpenFields(ms: uint32)
    ensures Fields(DefaultsForOpen().(heartbeatIntervalMs := ms), false) ==
            [U16OrU32(MAX_FRAME_SIZE, 4096)] + ([U8(SUPPORTED_PAYLOAD_TYPES, 7)] + ([U8(SUPPORTED_RPC_ENCODINGS, 9)] +
            ([U16OrU32(HEARTBEAT_INTERVAL, ms)] + [U8(ACK_MODE, 0)])))
  {
    hide U8, U16OrU32;
  }

  /** The body of an OPEN: tag, length and value of each record, with the interval in two bytes or in four. */
  lemma OpenOnTheWire(ms: uint32)
    ensures Encode(DefaultsForOpen().(heartbeatIntervalMs := ms), false) ==
            [0x04, 2, 0x10, 0x00] + ([0x07, 1, 0x07] + ([0x08, 1, 0x09] +
            ((if ms < 0x1_0000 then [0x0A, 2, ms / 0x100, ms % 0x100]
              else [0x0A, 4, ms / 0x100_0000, ms / 0x1_0000 % 0x100, ms / 0x100 % 0x100, ms % 0x100]) +
            [0x0B, 1, 0x00])))
  {
    OpenFields(ms);
    RecordsAre(MAX_FRAME_SIZE, 0, 4096);
    RecordsAre(SUPPORTED_PAYLOAD_TYPES, 7, 0);
    RecordsAre(SUPPORTED_RPC_ENCODINGS, 9, 0);
    RecordsAre(HEARTBEAT_INTERVAL, 0, ms);
    RecordsAre(ACK_MODE, 0, 0);
    hide RecordBytes, Fields, Write, U8, U16OrU32, U32;
    var e := [U8(ACK_MODE, 0)];
    WriteOne(U8(ACK_MODE, 0));
    var d := [U16OrU32(HEARTBEAT_INTERVAL, ms)] + e;
    WriteMore(U16OrU32(HEARTBEAT_INTERVAL, ms), e);
    var c := [U8(SUPPORTED_RPC_ENCODINGS, 9)] + d;
    WriteMore(U8(SUPPORTED_RPC_ENCODINGS, 9), d);
    WriteMore(U8(SUPPORTED_PAYLOAD_TYPES, 7), c);
    WriteMore(U16OrU32(MAX_FRAME_SIZE, 4096), [U8(SUPPORTED_PAYLOAD_TYPES, 7)] + c);
  }

  /** The four records that an OPEN of this protocol never carries. */
  lemma OtherRecordsOnTheWire(id: uint32, version: uint8, mtu: uint16, encoding: uint8)
    ensures Write([U32(SESSION_ID, id)]) ==
            [0x01, 4, id / 0x100_0000, id / 0x1_0000 % 0x100, id / 0x100 % 0x100, id % 0x100]
    ensures Write([U8(PROTOCOL_VERSION, version)]) == [0x02, 1, version]
    ensures Write([U16OrU32(MTU, mtu)]) == [0x06, 2, mtu / 0x100, mtu % 0x100]
    ensures Write([U8(SELECTED_RPC_ENCODING, encoding)]) == [0x1E, 1, encoding]
  {
    RecordsAre(SESSION_ID, 0, id);
    RecordsAre(PROTOCOL_VERSION, version, 0);
    RecordsAre(MTU, 0, mtu);
    RecordsAre(SELECTED_RPC_ENCODING, encoding, 0);
    hide RecordBytes, Write;
    WriteOne(U32(SESSION_ID, id));
    WriteOne(U8(PROTOCOL_VERSION, version));
    WriteOne(U16OrU32(MTU, mtu));
    WriteOne(U8(SELECTED_RPC_ENCODING, encoding));
  }
}
