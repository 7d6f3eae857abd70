/** HTTP/2 frames: their meaning as bytes, and the writers
    (src/http/v2.c; sections 4.1 and 6 of RFC 7540). */
module Frames {
  import opened Wrappers

  // ----- fields

  function Pow256(n: nat): (p: nat)
    ensures p > 0
  {
    if n == 0 then 1 else 256 * Pow256(n - 1)
  }

  function BigEndian(v: nat, n: nat): (bytes: Str)
    ensures |bytes| == n
  {
    if n == 0 then [] else BigEndian(v / 256, n - 1) + [v % 256]
  }

  function FromBigEndian(bytes: Str): nat {
    if bytes == [] then 0 else 256 * FromBigEndian(bytes[..|bytes| - 1]) + bytes[|bytes| - 1]
  }

  lemma {:induction false} BigEndianRoundTrip(v: nat, n: nat)
    requires v < Pow256(n)
    ensures FromBigEndian(BigEndian(v, n)) == v
    decreases n
  {
    if n > 0 {
      var bytes := BigEndian(v, n);
      assert bytes[..n - 1] == BigEndian(v / 256, n - 1);
      BigEndianRoundTrip(v / 256, n - 1);
    }
  }

  lemma {:induction false} FromBigEndianBound(bytes: Str)
    ensures FromBigEndian(bytes) < Pow256(|bytes|)
    decreases |bytes|
  {
    if bytes != [] {
      FromBigEndianBound(bytes[..|bytes| - 1]);
    }
  }

  const LENGTH_LIMIT: nat := 0x100_0000
  const ID_LIMIT: nat := 0x8000_0000

  lemma FieldLimits()
    ensures Pow256(3) == LENGTH_LIMIT && Pow256(4) == 2 * ID_LIMIT
  {
    assert Pow256(2) == 0x1_0000;
  }

  /** `a & m` */
  function And(a: nat, m: nat): nat {
    if a == 0 || m == 0 then 0 else a % 2 * (m % 2) + 2 * And(a / 2, m / 2)
  }

  /** The set bits of `flags` are all among those of `allowed`. */
  predicate OnlyFlags(flags: nat, allowed: nat) {
    And(flags, allowed) == flags
  }

  predicate HasFlag(flags: nat, flag: nat) {
    And(flags, flag) != 0
  }

  const END_STREAM: byte := 0x01
  const ACK: byte := 0x01
  const END_HEADERS: byte := 0x04
  const PADDED: byte := 0x08
  const PRIORITY: byte := 0x20

  // ----- frames

  datatype Priority = Priority(exclusive: bool, dependency: nat, weight: byte)

  datatype Setting = Setting(identifier: nat, value: nat)

  /** A parsed frame. PUSH_PROMISE carries stream 0 by its own check, and its
      promised identifier is read from beyond the byte that was fetched for
      it, so the model has none. */
  datatype Frame =
    | Data(id: nat, content: Str, isEnd: bool)
    | Headers(id: nat, priority: Option<Priority>, fragment: Str, endStream: bool, endHeaders: bool)
    | PriorityFrame(id: nat, info: Priority)
    | RstStream(id: nat, errorCode: nat)
    | Settings(ack: bool, entries: seq<Setting>)
    | PushPromise(fragment: Str, endHeaders: bool)
    | Ping(ack: bool, opaqueData: Str)
    | Goaway(lastStreamId: nat, errorCode: nat, debugData: Str)
    | WindowUpdate(id: nat, increment: nat)
    | Continuation(id: nat, fragment: Str, endHeaders: bool)

  datatype ErrorCode = ProtocolError | InternalError | FlowControlError | FrameSizeError

  datatype Parsed<+T> = Good(item: T, used: nat) | Bad(code: ErrorCode) {
    predicate IsFailure() { Bad? }

    function PropagateFailure<U>(): Parsed<U>
      requires Bad?
    {
      Bad(code)
    }

    function Extract(): (T, nat)
      requires Good?
    {
      (item, used)
    }
  }

  // ----- the frame header

  const HEADER_SIZE: nat := 9

  datatype RawHeader = RawHeader(length: nat, kind: byte, flags: byte, id: nat)

  /** The 31-bit identifier; the reserved bit is ignored. */
  function Identifier(bytes: Str): nat {
    FromBigEndian(bytes) % ID_LIMIT
  }

  function ParseRawHeader(bytes: Str): RawHeader
    requires |bytes| == HEADER_SIZE
  {
    RawHeader(FromBigEndian(bytes[..3]), bytes[3], bytes[4], Identifier(bytes[5..9]))
  }

  function WriteRawHeader(h: RawHeader): (bytes: Str)
    ensures |bytes| == HEADER_SIZE
  {
    BigEndian(h.length, 3) + [h.kind, h.flags] + BigEndian(h.id % ID_LIMIT, 4)
  }

  /** Section 4.1 of RFC 7540: the header survives writing and parsing for
      exactly the lengths of 24 bits and the identifiers of 31. */
  lemma RawHeaderRoundTrip(h: RawHeader)
    ensures ParseRawHeader(WriteRawHeader(h)) == h <==> h.length < LENGTH_LIMIT && h.id < ID_LIMIT
  {
    var bytes := WriteRawHeader(h);
    FieldLimits();
    assert bytes[..3] == BigEndian(h.length, 3);
    assert bytes[5..9] == BigEndian(h.id % ID_LIMIT, 4);
    BigEndianRoundTrip(h.id % ID_LIMIT, 4);
    FromBigEndianBound(bytes[..3]);
    if h.length < LENGTH_LIMIT {
      BigEndianRoundTrip(h.length, 3);
    }
  }

  // ----- payloads: `u` is everything unread behind the frame header

  /** `n` bytes at `at`; too few is an internal error. */
  function Fetch(u: Str, at: nat, n: nat): (r: Parsed<Str>)
    ensures r.Good? <==> at + n <= |u|
    ensures r.Good? ==> r == Good(u[at..at + n], at + n)
    ensures r.Bad? ==> r == Bad(InternalError)
  {
    if at + n <= |u| then Good(u[at..at + n], at + n) else Bad(InternalError)
  }

  predicate AllZero(bytes: Str) {
    forall i | 0 <= i < |bytes| :: bytes[i] == 0
  }

  /** What the pad length leaves: the payload size and the padding size. */
  datatype Room = Room(payload: nat, padding: nat)

  function PadLength(h: RawHeader, u: Str): (r: Parsed<Room>)
    ensures r.Good? ==> r.used + r.item.payload + r.item.padding == h.length
  {
    if !HasFlag(h.flags, PADDED) then Good(Room(h.length, 0), 0)
    else if h.length < 1 then Bad(ProtocolError)
    else
      var (pad, at) :- Fetch(u, 0, 1);
      if pad[0] >= h.length - 1 then Bad(ProtocolError)
      else Good(Room(h.length - 1 - pad[0], pad[0]), at)
  }

  /** The padding behind the payload must be zero. */
  function SkipPadding(u: Str, at: nat, padding: nat): (r: Parsed<()>)
    ensures r.Good? ==> r.used == at + padding && (r.used <= |u| || padding == 0)
  {
    if padding == 0 then Good((), at)
    else
      var (bytes, end) :- Fetch(u, at, padding);
      if AllZero(bytes) then Good((), end) else Bad(ProtocolError)
  }

  function ParsePriorityInfo(bytes: Str): Priority
    requires |bytes| == 5
  {
    var raw := FromBigEndian(bytes[..4]);
    Priority(raw >= ID_LIMIT, raw % ID_LIMIT, bytes[4])
  }

  const PRIORITY_SIZE: nat := 5

  function ParseData(h: RawHeader, u: Str): Parsed<Frame> {
    if h.id == 0 then Bad(ProtocolError)
    else if !OnlyFlags(h.flags, END_STREAM + PADDED) then Bad(ProtocolError)
    else
      var (room, at) :- PadLength(h, u);
      var (content, at) :- Fetch(u, at, room.payload);
      var (_, at) :- SkipPadding(u, at, room.padding);
      Good(Data(h.id, content, HasFlag(h.flags, END_STREAM)), at)
  }

  /** The optional priority in front of a header fragment takes five bytes of the payload. */
  function TakePriority(h: RawHeader, u: Str, at: nat, payload: nat): (r: Parsed<(Option<Priority>, nat)>)
    ensures r.Good? ==> r.used + r.item.1 == at + payload
  {
    if !HasFlag(h.flags, PRIORITY) then Good((None, payload), at)
    else if payload < PRIORITY_SIZE then Bad(ProtocolError)
    else
      var (bytes, at) :- Fetch(u, at, PRIORITY_SIZE);
      Good((Some(ParsePriorityInfo(bytes)), payload - PRIORITY_SIZE), at)
  }

  function ParseHeaders(h: RawHeader, u: Str): Parsed<Frame> {
    if h.id == 0 then Bad(ProtocolError)
    else if !OnlyFlags(h.flags, END_STREAM + END_HEADERS + PADDED + PRIORITY) then Bad(ProtocolError)
    else
      var (room, at) :- PadLength(h, u);
      var (taken, at) :- TakePriority(h, u, at, room.payload);
      var (fragment, at) :- Fetch(u, at, taken.1);
      var (_, at) :- SkipPadding(u, at, room.padding);
      Good(Headers(h.id, taken.0, fragment, HasFlag(h.flags, END_STREAM), HasFlag(h.flags, END_HEADERS)), at)
  }

  function ParsePriority(h: RawHeader, u: Str): Parsed<Frame> {
    if h.id == 0 || !OnlyFlags(h.flags, 0) then Bad(ProtocolError)
    else if h.length != PRIORITY_SIZE then Bad(FrameSizeError)
    else
      var (bytes, at) :- Fetch(u, 0, PRIORITY_SIZE);
      Good(PriorityFrame(h.id, ParsePriorityInfo(bytes)), at)
  }

  function ParseRstStream(h: RawHeader, u: Str): Parsed<Frame> {
    if h.id == 0 || !OnlyFlags(h.flags, 0) then Bad(ProtocolError)
    else if h.length != 4 then Bad(FrameSizeError)
    else
      var (bytes, at) :- Fetch(u, 0, 4);
      Good(RstStream(h.id, FromBigEndian(bytes)), at)
  }

  const SETTING_SIZE: nat := 6
  const HEADER_TABLE_SIZE: nat := 1
  const ENABLE_PUSH: nat := 2
  const MAX_CONCURRENT_STREAMS: nat := 3
  const INITIAL_WINDOW_SIZE: nat := 4
  const MAX_FRAME_SIZE: nat := 5
  const MAX_HEADER_LIST_SIZE: nat := 6

  const MIN_MAX_FRAME_SIZE: nat := 0x4000
  const MAX_MAX_FRAME_SIZE: nat := 0xFF_FFFF
  const MAX_WINDOW_SIZE: nat := 0x7FFF_FFFF

  /** The error a setting value is refused with, if any. */
  function SettingError(s: Setting): Option<ErrorCode> {
    if s.identifier == ENABLE_PUSH && s.value != 0 && s.value != 1 then Some(ProtocolError)
    else if s.identifier == INITIAL_WINDOW_SIZE && s.value > MAX_WINDOW_SIZE then Some(FlowControlError)
    else if s.identifier == MAX_FRAME_SIZE && (s.value > MAX_MAX_FRAME_SIZE + 1 || s.value < MIN_MAX_FRAME_SIZE) then
      Some(ProtocolError)
    else None
  }

  function SettingAt(data: Str, i: nat): Setting
    requires i + SETTING_SIZE <= |data|
  {
    Setting(FromBigEndian(data[i..i + 2]), FromBigEndian(data[i + 2..i + 6]))
  }

  predicate KnownSetting(s: Setting) {
    1 <= s.identifier <= 6
  }

  /** The entries from offset `i` on; unknown ones are skipped. */
  function SettingsFrom(data: Str, i: nat, entries: seq<Setting>): Parsed<seq<Setting>>
    requires i <= |data| && (|data| - i) % SETTING_SIZE == 0
    decreases |data| - i
  {
    if i == |data| then Good(entries, i)
    else
      var s := SettingAt(data, i);
      var refused := SettingError(s);
      if refused.Some? then Bad(refused.value)
      else SettingsFrom(data, i + SETTING_SIZE, if KnownSetting(s) then entries + [s] else entries)
  }

  function ParseSettingsPayload(data: Str): Parsed<seq<Setting>> {
    if |data| % SETTING_SIZE != 0 then Bad(FrameSizeError) else SettingsFrom(data, 0, [])
  }

  function ParseSettings(h: RawHeader, u: Str): Parsed<Frame> {
    if h.id != 0 || !OnlyFlags(h.flags, ACK) then Bad(ProtocolError)
    else if HasFlag(h.flags, ACK) then
      if h.length != 0 then Bad(FrameSizeError) else Good(Settings(true, []), 0)
    else if h.length % SETTING_SIZE != 0 then Bad(FrameSizeError)
    else
      var (data, at) :- Fetch(u, 0, h.length);
      var (entries, _) :- ParseSettingsPayload(data);
      Good(Settings(false, entries), at)
  }

  /** The promised identifier is fetched as one byte instead of four. */
  function ParsePushPromise(h: RawHeader, enablePush: bool, u: Str): Parsed<Frame> {
    if h.id != 0 || !OnlyFlags(h.flags, END_HEADERS + PADDED) || !enablePush then Bad(ProtocolError)
    else
      var (room, at) :- PadLength(h, u);
      if room.payload < 4 then Bad(ProtocolError)
      else
        var (_, at) :- Fetch(u, at, 1);
        var (fragment, at) :- Fetch(u, at, room.payload - 4);
        var (_, at) :- SkipPadding(u, at, room.padding);
        Good(PushPromise(fragment, HasFlag(h.flags, END_HEADERS)), at)
  }

  function ParsePing(h: RawHeader, u: Str): Parsed<Frame> {
    if h.id != 0 || !OnlyFlags(h.flags, ACK) then Bad(ProtocolError)
    else if h.length != 8 then Bad(FrameSizeError)
    else
      var (bytes, at) :- Fetch(u, 0, 8);
      Good(Ping(HasFlag(h.flags, ACK), bytes), at)
  }

  function ParseGoaway(h: RawHeader, u: Str): Parsed<Frame> {
    if h.id != 0 || !OnlyFlags(h.flags, 0) then Bad(ProtocolError)
    else if h.length < 8 then Bad(FrameSizeError)
    else
      var (bytes, at) :- Fetch(u, 0, 8);
      var (debugData, at) :- Fetch(u, at, h.length - 8);
      Good(Goaway(Identifier(bytes[..4]), FromBigEndian(bytes[4..8]), debugData), at)
  }

  function ParseWindowUpdate(h: RawHeader, u: Str): Parsed<Frame> {
    if !OnlyFlags(h.flags, 0) then Bad(ProtocolError)
    else if h.length != 4 then Bad(FrameSizeError)
    else
      var (bytes, at) :- Fetch(u, 0, 4);
      Good(WindowUpdate(h.id, Identifier(bytes)), at)
  }

  function ParseContinuation(h: RawHeader, u: Str): Parsed<Frame> {
    if h.id == 0 || !OnlyFlags(h.flags, END_HEADERS) then Bad(ProtocolError)
    else
      var (fragment, at) :- Fetch(u, 0, h.length);
      Good(Continuation(h.id, fragment, HasFlag(h.flags, END_HEADERS)), at)
  }

  const KIND_DATA: byte := 0
  const KIND_HEADERS: byte := 1
  const KIND_PRIORITY: byte := 2
  const KIND_RST_STREAM: byte := 3
  const KIND_SETTINGS: byte := 4
  const KIND_PUSH_PROMISE: byte := 5
  const KIND_PING: byte := 6
  const KIND_GOAWAY: byte := 7
  const KIND_WINDOW_UPDATE: byte := 8
  const KIND_CONTINUATION: byte := 9

  function ParsePayload(h: RawHeader, enablePush: bool, u: Str): Parsed<Frame> {
    match h.kind
    case 0 => ParseData(h, u)
    case 1 => ParseHeaders(h, u)
    case 2 => ParsePriority(h, u)
    case 3 => ParseRstStream(h, u)
    case 4 => ParseSettings(h, u)
    case 5 => ParsePushPromise(h, enablePush, u)
    case 6 => ParsePing(h, u)
    case 7 => ParseGoaway(h, u)
    case 8 => ParseWindowUpdate(h, u)
    case 9 => ParseContinuation(h, u)
    case _ => Bad(InternalError)
  }

  /** The first frame of the unread bytes. */
  function ParseFrame(maxFrameSize: nat, enablePush: bool, u: Str): Parsed<Frame> {
    var (bytes, _) :- Fetch(u, 0, HEADER_SIZE);
    var h := ParseRawHeader(bytes);
    if h.length > maxFrameSize then Bad(FrameSizeError)
    else
      var (frame, used) :- ParsePayload(h, enablePush, u[HEADER_SIZE..]);
      Good(frame, HEADER_SIZE + used)
  }

  // ----- what a successful parse guarantees

  /** What the parsers let through to the stream machine. */
  ghost predicate WellFormed(f: Frame) {
    match f
    case Data(id, _, _) => 0 < id
    case Headers(id, _, _, _, _) => 0 < id
    case PriorityFrame(id, _) => 0 < id
    case RstStream(id, _) => 0 < id
    case Continuation(id, _, _) => 0 < id
    case Settings(_, entries) => forall i | 0 <= i < |entries| :: SettingError(entries[i]).None?
    case _ => true
  }

  lemma {:induction false} SettingsAreChecked(data: Str, i: nat, entries: seq<Setting>)
    requires i <= |data| && (|data| - i) % SETTING_SIZE == 0
    requires forall j | 0 <= j < |entries| :: SettingError(entries[j]).None?
    ensures var r := SettingsFrom(data, i, entries);
            r.Good? ==> forall j | 0 <= j < |r.item| :: SettingError(r.item[j]).None?
    decreases |data| - i
  {
    if i < |data| {
      var s := SettingAt(data, i);
      if SettingError(s).None? {
        SettingsAreChecked(data, i + SETTING_SIZE, if KnownSetting(s) then entries + [s] else entries);
      }
    }
  }

  /** Exact framing: a parsed frame takes the bytes its header announces, with
      every combination of padding and priority, unless it is a PUSH_PROMISE,
      which leaves three bytes behind. */
  lemma FramingIsExact(maxFrameSize: nat, enablePush: bool, u: Str)
    requires ParseFrame(maxFrameSize, enablePush, u).Good?
    ensures |u| >= HEADER_SIZE
    ensures var h := ParseRawHeader(u[..HEADER_SIZE]);
            var r := ParseFrame(maxFrameSize, enablePush, u);
            && h.length <= maxFrameSize
            && r.used <= |u|
            && r.used == HEADER_SIZE + h.length - (if r.item.PushPromise? then 3 else 0)
            && (r.item.PushPromise? <==> h.kind == KIND_PUSH_PROMISE)
  {
    hide ParsePayload, ParseRawHeader;
    PayloadFraming(ParseRawHeader(u[0..0 + HEADER_SIZE]), enablePush, u[HEADER_SIZE..]);
    assert u[0..0 + HEADER_SIZE] == u[..HEADER_SIZE];
  }

  lemma PayloadFraming(h: RawHeader, enablePush: bool, u: Str)
    requires ParsePayload(h, enablePush, u).Good?
    ensures var r := ParsePayload(h, enablePush, u);
            && r.used <= |u|
            && r.used == h.length - (if r.item.PushPromise? then 3 else 0)
            && (r.item.PushPromise? <==> h.kind == KIND_PUSH_PROMISE)
  {
    hide HasFlag, OnlyFlags, FromBigEndian, ParseSettingsPayload, PadLength, SkipPadding, TakePriority, Fetch;
  }

  /** The smallest PUSH_PROMISE, with stream 7 promised, is accepted, and three
      of its bytes stay behind: a zero byte, another, and the low byte of the
      identifier. */
  lemma PushPromiseLeavesBytes(maxFrameSize: nat, rest: Str)
    requires maxFrameSize >= MIN_MAX_FRAME_SIZE
    ensures var u := [0, 0, 4, KIND_PUSH_PROMISE, 0, 0, 0, 0, 0] + [0, 0, 0, 7] + rest;
            && ParseFrame(maxFrameSize, true, u) == Good(PushPromise([], false), HEADER_SIZE + 1)
            && u[HEADER_SIZE + 1..] == [0, 0, 7] + rest
  {
    hide FromBigEndian;
    var h := RawHeader(4, KIND_PUSH_PROMISE, 0, 0);
    var header: Str := [0, 0, 4, KIND_PUSH_PROMISE, 0, 0, 0, 0, 0];
    var u := header + [0, 0, 0, 7] + rest;
    assert u[0..0 + HEADER_SIZE] == header;
    assert header[..3] == [0, 0, 4] && header[5..9] == [0, 0, 0, 0];
    SmallNumbers();
    assert ParseRawHeader(header) == h;
    assert And(0, END_HEADERS + PADDED) == 0 && And(0, PADDED) == 0 && And(0, END_HEADERS) == 0;
    var behind := u[HEADER_SIZE..];
    assert behind[1..1 + 0] == [] && |behind| >= 4;
    assert ParsePushPromise(h, true, behind) == Good(PushPromise([], false), 1);
    assert ParsePayload(h, true, behind) == Good(PushPromise([], false), 1);
  }

  lemma SmallNumbers()
    ensures FromBigEndian([0, 0, 4]) == 4 && FromBigEndian([0, 0, 0, 0]) == 0
  {
    var zero: Str := [0];
    var zeros: Str := [0, 0, 0, 0];
    assert FromBigEndian(zero[..0]) == 0 && zeros[..3][..2][..1] == zero && zeros[..3][..2] == [0, 0, 4][..2];
    assert FromBigEndian(zeros[..3][..2]) == 0;
  }

  lemma ParsedIsWellFormed(maxFrameSize: nat, enablePush: bool, u: Str)
    requires ParseFrame(maxFrameSize, enablePush, u).Good?
    ensures WellFormed(ParseFrame(maxFrameSize, enablePush, u).item)
  {
    hide ParsePayload, ParseRawHeader, WellFormed;
    PayloadIsWellFormed(ParseRawHeader(u[0..0 + HEADER_SIZE]), enablePush, u[HEADER_SIZE..]);
  }

  lemma PayloadIsWellFormed(h: RawHeader, enablePush: bool, u: Str)
    requires ParsePayload(h, enablePush, u).Good?
    ensures WellFormed(ParsePayload(h, enablePush, u).item)
  {
    hide HasFlag, OnlyFlags, FromBigEndian, PadLength, SkipPadding, TakePriority, ParseSettings, SettingError;
    if h.kind == KIND_SETTINGS {
      SettingsFrameIsWellFormed(h, u);
    }
  }

  lemma SettingsFrameIsWellFormed(h: RawHeader, u: Str)
    requires ParseSettings(h, u).Good?
    ensures ParseSettings(h, u).item.Settings? && WellFormed(ParseSettings(h, u).item)
  {
    hide HasFlag, OnlyFlags, SettingsFrom, SettingError;
    if h.length % SETTING_SIZE == 0 && h.length <= |u| {
      var data := Fetch(u, 0, h.length).item;
      SettingsAreChecked(data, 0, []);
      if !HasFlag(h.flags, ACK) {
        assert ParseSettings(h, u).item == Settings(false, SettingsFrom(data, 0, []).item);
      }
    }
  }
}
