/** Reading frames from a connection: each parser fetches its parts from the
    buffered reader (src/http/v2.c:524-1777). */
module FrameReader {
  import opened Wrappers
  import opened Frames
  import BR = BufferedReader

  /** The reader stands at offset `at` of the unread bytes `u`. */
  ghost predicate At(reader: BR.Reader, u: Str, ending: BR.Ending, at: nat)
    reads reader, reader.descriptor
  {
    at <= |u| && reader.Valid() && reader.Abstract() == BR.Open(u[at..], ending)
  }

  /** A parse result whose `used` bytes have left the reader. */
  ghost predicate Consumed<T>(reader: BR.Reader, r: Parsed<T>, u: Str, ending: BR.Ending)
    reads reader, reader.descriptor
  {
    reader.Valid() && (r.Good? ==> At(reader, u, ending, r.used))
  }

  method FetchFrom(reader: BR.Reader, n: nat, ghost u: Str, ghost ending: BR.Ending, at: nat) returns (r: Parsed<Str>)
    requires At(reader, u, ending, at)
    modifies reader, reader.descriptor
    ensures r == Fetch(u, at, n) && Consumed(reader, r, u, ending)
  {
    var answer := reader.GetAmount(n);
    if !answer.Bytes? {
      return Bad(InternalError);
    }
    assert u[at..][..n] == u[at..at + n] && u[at..][n..] == u[at + n..];
    r := Good(answer.data, at + n);
  }

  method ReadPadLength(reader: BR.Reader, h: RawHeader, ghost u: Str, ghost ending: BR.Ending) returns (r: Parsed<Room>)
    requires At(reader, u, ending, 0)
    modifies reader, reader.descriptor
    ensures r == PadLength(h, u) && Consumed(reader, r, u, ending)
  {
    hide HasFlag;
    if !HasFlag(h.flags, PADDED) {
      return Good(Room(h.length, 0), 0);
    }
    if h.length < 1 {
      return Bad(ProtocolError);
    }
    var pad := FetchFrom(reader, 1, u, ending, 0);
    if pad.Bad? {
      return Bad(pad.code);
    }
    var padding := pad.item[0];
    if padding >= h.length - 1 {
      return Bad(ProtocolError);
    }
    r := Good(Room(h.length - 1 - padding, padding), 1);
  }

  method ReadPadding(reader: BR.Reader, padding: nat, ghost u: Str, ghost ending: BR.Ending, at: nat)
    returns (r: Parsed<()>)
    requires At(reader, u, ending, at)
    modifies reader, reader.descriptor
    ensures r == SkipPadding(u, at, padding) && Consumed(reader, r, u, ending)
  {
    if padding == 0 {
      return Good((), at);
    }
    var bytes := FetchFrom(reader, padding, u, ending, at);
    if bytes.Bad? {
      return Bad(bytes.code);
    }
    for i := 0 to |bytes.item|
      invariant AllZero(bytes.item[..i])
    {
      if bytes.item[i] != 0 {
        assert !AllZero(bytes.item);
        return Bad(ProtocolError);
      }
    }
    assert bytes.item[..|bytes.item|] == bytes.item;
    r := Good((), bytes.used);
  }

  method ReadData(reader: BR.Reader, h: RawHeader, ghost u: Str, ghost ending: BR.Ending) returns (r: Parsed<Frame>)
    requires At(reader, u, ending, 0)
    modifies reader, reader.descriptor
    ensures r == ParseData(h, u) && Consumed(reader, r, u, ending)
  {
    assert reader.Valid();
    hide HasFlag, OnlyFlags, PadLength, SkipPadding, Fetch, At;
    if h.id == 0 || !OnlyFlags(h.flags, END_STREAM + PADDED) {
      return Bad(ProtocolError);
    }
    var room := ReadPadLength(reader, h, u, ending);
    if room.Bad? {
      return Bad(room.code);
    }
    var content := FetchFrom(reader, room.item.payload, u, ending, room.used);
    if content.Bad? {
      return Bad(content.code);
    }
    var padding := ReadPadding(reader, room.item.padding, u, ending, content.used);
    if padding.Bad? {
      return Bad(padding.code);
    }
    r := Good(Data(h.id, content.item, HasFlag(h.flags, END_STREAM)), padding.used);
  }

  method ReadPriorityInfo(reader: BR.Reader, h: RawHeader, payload: nat, ghost u: Str, ghost ending: BR.Ending, at: nat)
    returns (r: Parsed<(Option<Priority>, nat)>)
    requires At(reader, u, ending, at)
    modifies reader, reader.descriptor
    ensures r == TakePriority(h, u, at, payload) && Consumed(reader, r, u, ending)
  {
    hide HasFlag, ParsePriorityInfo;
    if !HasFlag(h.flags, PRIORITY) {
      return Good((None, payload), at);
    }
    if payload < PRIORITY_SIZE {
      return Bad(ProtocolError);
    }
    var bytes := FetchFrom(reader, PRIORITY_SIZE, u, ending, at);
    if bytes.Bad? {
      return Bad(bytes.code);
    }
    r := Good((Some(ParsePriorityInfo(bytes.item)), payload - PRIORITY_SIZE), bytes.used);
  }

  method ReadHeaders(reader: BR.Reader, h: RawHeader, ghost u: Str, ghost ending: BR.Ending) returns (r: Parsed<Frame>)
    requires At(reader, u, ending, 0)
    modifies reader, reader.descriptor
    ensures r == ParseHeaders(h, u) && Consumed(reader, r, u, ending)
  {
    assert reader.Valid();
    hide HasFlag, OnlyFlags, PadLength, SkipPadding, TakePriority, Fetch, At;
    if h.id == 0 || !OnlyFlags(h.flags, END_STREAM + END_HEADERS + PADDED + PRIORITY) {
      return Bad(ProtocolError);
    }
    var room := ReadPadLength(reader, h, u, ending);
    if room.Bad? {
      return Bad(room.code);
    }
    var taken := ReadPriorityInfo(reader, h, room.item.payload, u, ending, room.used);
    if taken.Bad? {
      return Bad(taken.code);
    }
    var fragment := FetchFrom(reader, taken.item.1, u, ending, taken.used);
    if fragment.Bad? {
      return Bad(fragment.code);
    }
    var padding := ReadPadding(reader, room.item.padding, u, ending, fragment.used);
    if padding.Bad? {
      return Bad(padding.code);
    }
    r := Good(Headers(h.id, taken.item.0, fragment.item, HasFlag(h.flags, END_STREAM), HasFlag(h.flags, END_HEADERS)),
              padding.used);
  }

  method ReadPriority(reader: BR.Reader, h: RawHeader, ghost u: Str, ghost ending: BR.Ending) returns (r: Parsed<Frame>)
    requires At(reader, u, ending, 0)
    modifies reader, reader.descriptor
    ensures r == ParsePriority(h, u) && Consumed(reader, r, u, ending)
  {
    hide OnlyFlags, ParsePriorityInfo;
    if h.id == 0 || !OnlyFlags(h.flags, 0) {
      return Bad(ProtocolError);
    }
    if h.length != PRIORITY_SIZE {
      return Bad(FrameSizeError);
    }
    var bytes := FetchFrom(reader, PRIORITY_SIZE, u, ending, 0);
    r := if bytes.Bad? then Bad(bytes.code) else Good(PriorityFrame(h.id, ParsePriorityInfo(bytes.item)), bytes.used);
  }

  method ReadRstStream(reader: BR.Reader, h: RawHeader, ghost u: Str, ghost ending: BR.Ending)
    returns (r: Parsed<Frame>)
    requires At(reader, u, ending, 0)
    modifies reader, reader.descriptor
    ensures r == ParseRstStream(h, u) && Consumed(reader, r, u, ending)
  {
    hide OnlyFlags, FromBigEndian;
    if h.id == 0 || !OnlyFlags(h.flags, 0) {
      return Bad(ProtocolError);
    }
    if h.length != 4 {
      return Bad(FrameSizeError);
    }
    var bytes := FetchFrom(reader, 4, u, ending, 0);
    r := if bytes.Bad? then Bad(bytes.code) else Good(RstStream(h.id, FromBigEndian(bytes.item)), bytes.used);
  }

  /** The loop over the entries of a settings payload; it also serves the
      settings of an h2c upgrade request. */
  method ReadSettingsPayload(data: Str) returns (r: Parsed<seq<Setting>>)
    ensures r == ParseSettingsPayload(data)
  {
    hide SettingError, SettingAt, KnownSetting;
    if |data| % SETTING_SIZE != 0 {
      return Bad(FrameSizeError);
    }
    var entries: seq<Setting> := [];
    var i := 0;
    while i < |data|
      invariant 0 <= i <= |data| && (|data| - i) % SETTING_SIZE == 0
      invariant ParseSettingsPayload(data) == SettingsFrom(data, i, entries)
    {
      var s := SettingAt(data, i);
      var refused := SettingError(s);
      if refused.Some? {
        return Bad(refused.value);
      }
      if KnownSetting(s) {
        entries := entries + [s];
      }
      i := i + SETTING_SIZE;
    }
    r := Good(entries, i);
  }

  method ReadSettings(reader: BR.Reader, h: RawHeader, ghost u: Str, ghost ending: BR.Ending) returns (r: Parsed<Frame>)
    requires At(reader, u, ending, 0)
    modifies reader, reader.descriptor
    ensures r == ParseSettings(h, u) && Consumed(reader, r, u, ending)
  {
    hide HasFlag, OnlyFlags, ParseSettingsPayload;
    if h.id != 0 || !OnlyFlags(h.flags, ACK) {
      return Bad(ProtocolError);
    }
    if HasFlag(h.flags, ACK) {
      return if h.length != 0 then Bad(FrameSizeError) else Good(Settings(true, []), 0);
    }
    if h.length % SETTING_SIZE != 0 {
      return Bad(FrameSizeError);
    }
    var data := FetchFrom(reader, h.length, u, ending, 0);
    if data.Bad? {
      return Bad(data.code);
    }
    var entries := ReadSettingsPayload(data.item);
    r := if entries.Bad? then Bad(entries.code) else Good(Settings(false, entries.item), data.used);
  }

  method ReadPushPromise(reader: BR.Reader, h: RawHeader, enablePush: bool, ghost u: Str, ghost ending: BR.Ending)
    returns (r: Parsed<Frame>)
    requires At(reader, u, ending, 0)
    modifies reader, reader.descriptor
    ensures r == ParsePushPromise(h, enablePush, u) && Consumed(reader, r, u, ending)
  {
    assert reader.Valid();
    hide HasFlag, OnlyFlags, PadLength, SkipPadding, Fetch, At;
    if h.id != 0 || !OnlyFlags(h.flags, END_HEADERS + PADDED) || !enablePush {
      return Bad(ProtocolError);
    }
    var room := ReadPadLength(reader, h, u, ending);
    if room.Bad? {
      return Bad(room.code);
    }
    if room.item.payload < 4 {
      return Bad(ProtocolError);
    }
    var promised := FetchFrom(reader, 1, u, ending, room.used);
    if promised.Bad? {
      return Bad(promised.code);
    }
    var fragment := FetchFrom(reader, room.item.payload - 4, u, ending, promised.used);
    if fragment.Bad? {
      return Bad(fragment.code);
    }
    var padding := ReadPadding(reader, room.item.padding, u, ending, fragment.used);
    if padding.Bad? {
      return Bad(padding.code);
    }
    r := Good(PushPromise(fragment.item, HasFlag(h.flags, END_HEADERS)), padding.used);
  }

  method ReadPing(reader: BR.Reader, h: RawHeader, ghost u: Str, ghost ending: BR.Ending) returns (r: Parsed<Frame>)
    requires At(reader, u, ending, 0)
    modifies reader, reader.descriptor
    ensures r == ParsePing(h, u) && Consumed(reader, r, u, ending)
  {
    hide HasFlag, OnlyFlags;
    if h.id != 0 || !OnlyFlags(h.flags, ACK) {
      return Bad(ProtocolError);
    }
    if h.length != 8 {
      return Bad(FrameSizeError);
    }
    var bytes := FetchFrom(reader, 8, u, ending, 0);
    r := if bytes.Bad? then Bad(bytes.code) else Good(Ping(HasFlag(h.flags, ACK), bytes.item), bytes.used);
  }

  method ReadGoaway(reader: BR.Reader, h: RawHeader, ghost u: Str, ghost ending: BR.Ending) returns (r: Parsed<Frame>)
    requires At(reader, u, ending, 0)
    modifies reader, reader.descriptor
    ensures r == ParseGoaway(h, u) && Consumed(reader, r, u, ending)
  {
    hide OnlyFlags, FromBigEndian;
    if h.id != 0 || !OnlyFlags(h.flags, 0) {
      return Bad(ProtocolError);
    }
    if h.length < 8 {
      return Bad(FrameSizeError);
    }
    var bytes := FetchFrom(reader, 8, u, ending, 0);
    if bytes.Bad? {
      return Bad(bytes.code);
    }
    var debugData := FetchFrom(reader, h.length - 8, u, ending, bytes.used);
    if debugData.Bad? {
      return Bad(debugData.code);
    }
    r := Good(Goaway(Identifier(bytes.item[..4]), FromBigEndian(bytes.item[4..8]), debugData.item), debugData.used);
  }

  method ReadWindowUpdate(reader: BR.Reader, h: RawHeader, ghost u: Str, ghost ending: BR.Ending)
    returns (r: Parsed<Frame>)
    requires At(reader, u, ending, 0)
    modifies reader, reader.descriptor
    ensures r == ParseWindowUpdate(h, u) && Consumed(reader, r, u, ending)
  {
    hide OnlyFlags, FromBigEndian;
    if !OnlyFlags(h.flags, 0) {
      return Bad(ProtocolError);
    }
    if h.length != 4 {
      return Bad(FrameSizeError);
    }
    var bytes := FetchFrom(reader, 4, u, ending, 0);
    r := if bytes.Bad? then Bad(bytes.code) else Good(WindowUpdate(h.id, Identifier(bytes.item)), bytes.used);
  }

  method ReadContinuation(reader: BR.Reader, h: RawHeader, ghost u: Str, ghost ending: BR.Ending)
    returns (r: Parsed<Frame>)
    requires At(reader, u, ending, 0)
    modifies reader, reader.descriptor
    ensures r == ParseContinuation(h, u) && Consumed(reader, r, u, ending)
  {
    hide HasFlag, OnlyFlags;
    if h.id == 0 || !OnlyFlags(h.flags, END_HEADERS) {
      return Bad(ProtocolError);
    }
    var fragment := FetchFrom(reader, h.length, u, ending, 0);
    r := if fragment.Bad? then Bad(fragment.code)
         else Good(Continuation(h.id, fragment.item, HasFlag(h.flags, END_HEADERS)), fragment.used);
  }

  method ReadPayload(reader: BR.Reader, h: RawHeader, enablePush: bool, ghost u: Str, ghost ending: BR.Ending)
    returns (r: Parsed<Frame>)
    requires At(reader, u, ending, 0)
    modifies reader, reader.descriptor
    ensures r == ParsePayload(h, enablePush, u) && Consumed(reader, r, u, ending)
  {
    hide ParseData, ParseHeaders, ParsePriority, ParseRstStream, ParseSettings, ParsePushPromise, ParsePing,
         ParseGoaway, ParseWindowUpdate, ParseContinuation;
    match h.kind
    case 0 => r := ReadData(reader, h, u, ending);
    case 1 => r := ReadHeaders(reader, h, u, ending);
    case 2 => r := ReadPriority(reader, h, u, ending);
    case 3 => r := ReadRstStream(reader, h, u, ending);
    case 4 => r := ReadSettings(reader, h, u, ending);
    case 5 => r := ReadPushPromise(reader, h, enablePush, u, ending);
    case 6 => r := ReadPing(reader, h, u, ending);
    case 7 => r := ReadGoaway(reader, h, u, ending);
    case 8 => r := ReadWindowUpdate(reader, h, u, ending);
    case 9 => r := ReadContinuation(reader, h, u, ending);
    case _ => r := Bad(InternalError);
  }

  /** The next frame of the connection: what the bytes of the stream say,
      however they arrive; a stream that is not open is an internal error. */
  method ReadFrame(reader: BR.Reader, maxFrameSize: nat, enablePush: bool) returns (r: Parsed<Frame>)
    requires reader.Valid()
    modifies reader, reader.descriptor
    ensures reader.Valid()
    ensures !old(reader.Abstract()).Open? ==> r == Bad(InternalError)
    ensures old(reader.Abstract()).Open? ==>
              && r == ParseFrame(maxFrameSize, enablePush, old(reader.Abstract()).unread)
              && (r.Good? ==> At(reader, old(reader.Abstract()).unread, old(reader.Abstract()).ending, r.used))
  {
    hide ParsePayload, ParseRawHeader;
    ghost var before := reader.Abstract();
    var header := reader.GetAmount(HEADER_SIZE);
    if !header.Bytes? {
      return Bad(InternalError);
    }
    ghost var u := before.unread;
    assert u[0..0 + HEADER_SIZE] == header.data;
    var h := ParseRawHeader(header.data);
    if h.length > maxFrameSize {
      return Bad(FrameSizeError);
    }
    ghost var rest := u[HEADER_SIZE..];
    assert rest[0..] == rest;
    r := ReadPayload(reader, h, enablePush, rest, before.ending);
    if r.Good? {
      assert rest[r.used..] == u[HEADER_SIZE + r.used..];
      r := Good(r.item, HEADER_SIZE + r.used);
    }
  }
}
