/** Writing frames, and reading them back (src/http/v2.c:138-488; sections 4.1
    and 6 of RFC 7540). */
module FrameWriter {
  import opened Wrappers
  import opened Frames

  /** A header and its payload. The length field of the header has 24 bits, so
      a longer payload does not match it and is refused. */
  function WriteRaw(kind: byte, flags: byte, id: nat, payload: Str): Option<Str> {
    var h := RawHeader(|payload| % LENGTH_LIMIT, kind, flags, id);
    if |payload| != h.length then None else Some(WriteRawHeader(h) + payload)
  }

  function Flag(on: bool, flag: byte): byte {
    if on then flag else 0
  }

  /** The frames this end writes, and their wire form. */
  predicate Sendable(f: Frame) {
    match f
    case Data(_, _, _) => true
    case Headers(_, priority, _, _, _) => priority.None?
    case Continuation(_, _, _) => true
    case RstStream(_, _) => true
    case Ping(_, opaqueData) => |opaqueData| == 8
    case Goaway(_, _, _) => true
    case _ => false
  }

  function Payload(f: Frame): Str
    requires Sendable(f)
  {
    match f
    case Data(_, content, _) => content
    case Headers(_, _, fragment, _, _) => fragment
    case Continuation(_, fragment, _) => fragment
    case RstStream(_, errorCode) => BigEndian(errorCode, 4)
    case Ping(_, opaqueData) => opaqueData
    case Goaway(last, errorCode, debugData) => BigEndian(last % ID_LIMIT, 4) + BigEndian(errorCode, 4) + debugData
  }

  function StreamOf(f: Frame): nat {
    match f
    case Data(id, _, _) => id
    case Headers(id, _, _, _, _) => id
    case Continuation(id, _, _) => id
    case RstStream(id, _) => id
    case _ => 0
  }

  function KindOf(f: Frame): byte
    requires Sendable(f)
  {
    match f
    case Data(_, _, _) => KIND_DATA
    case Headers(_, _, _, _, _) => KIND_HEADERS
    case Continuation(_, _, _) => KIND_CONTINUATION
    case RstStream(_, _) => KIND_RST_STREAM
    case Ping(_, _) => KIND_PING
    case Goaway(_, _, _) => KIND_GOAWAY
  }

  function FlagsOf(f: Frame): byte
    requires Sendable(f)
  {
    match f
    case Data(_, _, isEnd) => Flag(isEnd, END_STREAM)
    case Headers(_, _, _, endStream, endHeaders) => Flag(endStream, END_STREAM) + Flag(endHeaders, END_HEADERS)
    case Continuation(_, _, endHeaders) => Flag(endHeaders, END_HEADERS)
    case RstStream(_, _) => 0
    case Ping(ack, _) => Flag(ack, ACK)
    case Goaway(_, _, _) => 0
  }

  function Write(f: Frame): Option<Str>
    requires Sendable(f)
  {
    WriteRaw(KindOf(f), FlagsOf(f), StreamOf(f), Payload(f))
  }

  /** The numbers of a frame are in the ranges of their fields. */
  ghost predicate InRange(f: Frame)
    requires Sendable(f)
  {
    match f
    case RstStream(id, errorCode) => 0 < id < ID_LIMIT && errorCode < 2 * ID_LIMIT
    case Ping(_, _) => true
    case Goaway(last, errorCode, _) => last < ID_LIMIT && errorCode < 2 * ID_LIMIT
    case _ => 0 < StreamOf(f) < ID_LIMIT
  }

  lemma FlagValues()
    ensures And(0, 0) == 0 && And(0, 1) == 0 && And(0, 4) == 0 && And(0, 8) == 0 && And(0, 0x20) == 0
    ensures And(0, 9) == 0 && And(0, 0x2D) == 0
    ensures And(1, 1) == 1 && And(1, 4) == 0 && And(1, 8) == 0
    ensures And(1, 0x20) == 0 && And(1, 9) == 1 && And(1, 0x2D) == 1
  {
    assert And(0, 0x16) == 0;
  }

  lemma EndHeadersValues()
    ensures And(4, 1) == 0 && And(4, 4) == 4 && And(4, 8) == 0 && And(4, 0x20) == 0 && And(4, 0x2D) == 4
    ensures And(5, 1) == 1 && And(5, 4) == 4 && And(5, 8) == 0 && And(5, 0x20) == 0 && And(5, 0x2D) == 5
  {
    assert And(1, 0x0B) == 1 && And(2, 0x16) == 2 * And(1, 0x0B);
    assert And(1, 1) == 1 && And(2, 2) == 2 * And(1, 1) && And(2, 0x10) == 2 * And(1, 8) && And(2, 4) == 2 * And(1, 2);
  }

  lemma RawRoundTrip(kind: byte, flags: byte, id: nat, payload: Str, maxFrameSize: nat, enablePush: bool, rest: Str)
    requires |payload| < LENGTH_LIMIT && |payload| <= maxFrameSize && id < ID_LIMIT
    ensures WriteRaw(kind, flags, id, payload).Some?
    ensures var bytes := WriteRaw(kind, flags, id, payload).value;
            var p := ParsePayload(RawHeader(|payload|, kind, flags, id), enablePush, payload + rest);
            && |bytes| == HEADER_SIZE + |payload|
            && ParseFrame(maxFrameSize, enablePush, bytes + rest)
            == if p.Bad? then Bad(p.code) else Good(p.item, HEADER_SIZE + p.used)
  {
    hide ParsePayload, ParseRawHeader, WriteRawHeader;
    var h := RawHeader(|payload|, kind, flags, id);
    assert |payload| % LENGTH_LIMIT == |payload|;
    RawHeaderRoundTrip(h);
    var bytes := WriteRawHeader(h) + payload;
    var u := bytes + rest;
    assert u[0..HEADER_SIZE] == WriteRawHeader(h);
    assert u[HEADER_SIZE..] == payload + rest;
  }

  /** Every frame this end writes is read back as itself, with the bytes behind
      it untouched, whenever its payload fits the 24-bit length and the limit
      of the reader; a payload that does not fit 24 bits is not written. */
  lemma WriteRoundTrip(f: Frame, maxFrameSize: nat, enablePush: bool, rest: Str)
    requires Sendable(f) && InRange(f)
    ensures Write(f).Some? <==> |Payload(f)| < LENGTH_LIMIT
    ensures Write(f).Some? ==> |Write(f).value| == HEADER_SIZE + |Payload(f)|
    ensures Write(f).Some? && |Payload(f)| <= maxFrameSize ==>
              ParseFrame(maxFrameSize, enablePush, Write(f).value + rest) == Good(f, |Write(f).value|)
  {
    hide ParsePayload, ParseFrame, WriteRawHeader, Payload, KindOf, FlagsOf;
    if |Payload(f)| < LENGTH_LIMIT && |Payload(f)| <= maxFrameSize {
      PayloadRoundTrip(f, enablePush, rest);
      RawRoundTrip(KindOf(f), FlagsOf(f), StreamOf(f), Payload(f), maxFrameSize, enablePush, rest);
    }
  }

  lemma PayloadRoundTrip(f: Frame, enablePush: bool, rest: Str)
    requires Sendable(f) && InRange(f)
    ensures StreamOf(f) < ID_LIMIT
    ensures ParsePayload(RawHeader(|Payload(f)|, KindOf(f), FlagsOf(f), StreamOf(f)), enablePush, Payload(f) + rest)
         == Good(f, |Payload(f)|)
  {
    hide And, FromBigEndian, BigEndian;
    var payload := Payload(f);
    assert payload == (payload + rest)[0..0 + |payload|];
    FlagValues();
    match f
    case Data(_, _, _) =>
    case Headers(_, _, _, _, _) => EndHeadersValues();
    case Continuation(_, _, _) => EndHeadersValues();
    case RstStream(_, errorCode) =>
      FieldLimits();
      BigEndianRoundTrip(errorCode, 4);
    case Ping(_, _) =>
    case Goaway(last, errorCode, debugData) => GoawayRoundTrip(last, errorCode, debugData, enablePush, rest);
  }

  lemma GoawayRoundTrip(last: nat, errorCode: nat, debugData: Str, enablePush: bool, rest: Str)
    requires last < ID_LIMIT && errorCode < 2 * ID_LIMIT
    ensures var payload := Payload(Goaway(last, errorCode, debugData));
            ParsePayload(RawHeader(|payload|, KIND_GOAWAY, 0, 0), enablePush, payload + rest)
            == Good(Goaway(last, errorCode, debugData), |payload|)
  {
    hide And, FromBigEndian, BigEndian;
    FlagValues();
    FieldLimits();
    BigEndianRoundTrip(last, 4);
    BigEndianRoundTrip(errorCode, 4);
    var payload := Payload(Goaway(last, errorCode, debugData));
    var u := payload + rest;
    assert u[0..8] == BigEndian(last, 4) + BigEndian(errorCode, 4);
    assert u[0..8][..4] == BigEndian(last, 4) && u[0..8][4..8] == BigEndian(errorCode, 4);
    assert u[8..|payload|] == debugData;
  }
}
