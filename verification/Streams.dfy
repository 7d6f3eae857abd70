/** The stream machine: what a frame does to a stream and to the connection
    (src/http/v2.c:1779-2740; section 5.1 of RFC 7540). */
module Streams {
  import opened Wrappers
  import opened Frames
  import opened HpackTable

  // ----- one stream

  datatype StreamState = Idle | Reserved | Open | HalfClosed | Closed

  datatype Stream = Stream(
    state: StreamState,
    headersFinished: bool,
    headerBlocks: seq<Str>,
    dataBlocks: seq<Str>,
    endStream: bool,
    priority: Priority)

  const DEFAULT_PRIORITY := Priority(false, 0, 16)

  function NewStream(state: StreamState, endStream: bool, priority: Priority): Stream {
    Stream(state, false, [], [], endStream, priority)
  }

  /** Closing gives the blocks back. */
  function Close(s: Stream): Stream {
    s.(state := Closed, headerBlocks := [], dataBlocks := [])
  }

  function CloseAny(s: Option<Stream>): Option<Stream> {
    match s
    case None => None
    case Some(stream) => Some(Close(stream))
  }

  /** A stream that is not in the map is idle. */
  function StateOf(s: Option<Stream>): StreamState {
    match s
    case None => Idle
    case Some(stream) => stream.state
  }

  /** What processing a frame reports. */
  datatype Verdict = Fine | Finished(id: nat) | StreamError | CloseConnection

  datatype Effect = Effect(stream: Option<Stream>, verdict: Verdict)

  /** After a block was added: a stream with all its headers and its end is a request. */
  function Complete(id: nat, s: Stream): Effect {
    if s.endStream && s.headersFinished then Effect(Some(s.(state := HalfClosed)), Finished(id))
    else Effect(Some(s), Fine)
  }

  function OnData(s: Option<Stream>, f: Frame): Effect
    requires f.Data?
  {
    if StateOf(s) != Open && StateOf(s) != HalfClosed then Effect(CloseAny(s), StreamError)
    else if s.value.endStream || !s.value.headersFinished then Effect(CloseAny(s), StreamError)
    else Complete(f.id, s.value.(dataBlocks := s.value.dataBlocks + [f.content], endStream := f.isEnd))
  }

  function AddHeaderBlock(s: Stream, fragment: Str, endHeaders: bool): Stream {
    s.(headerBlocks := s.headerBlocks + [fragment], headersFinished := endHeaders)
  }

  function OnHeaders(s: Option<Stream>, f: Frame): Effect
    requires f.Headers?
  {
    if StateOf(s) != Idle then Effect(CloseAny(s), StreamError)
    else
      var priority := if f.priority.Some? then f.priority.value
                      else if s.Some? then s.value.priority else DEFAULT_PRIORITY;
      var stream := if s.None? then NewStream(Open, f.endStream, priority)
                    else s.value.(endStream := s.value.endStream || f.endStream, priority := priority);
      if stream.headersFinished then Effect(Some(Close(stream)), StreamError)
      else Complete(f.id, AddHeaderBlock(stream, f.fragment, f.endHeaders))
  }

  function OnContinuation(s: Option<Stream>, f: Frame): Effect
    requires f.Continuation?
  {
    if StateOf(s) != Open && StateOf(s) != Reserved then Effect(CloseAny(s), StreamError)
    else if s.value.headersFinished || f.fragment == [] then Effect(CloseAny(s), StreamError)
    else Complete(f.id, AddHeaderBlock(s.value, f.fragment, f.endHeaders))
  }

  function OnPriority(s: Option<Stream>, f: Frame): Effect
    requires f.PriorityFrame?
  {
    if s.None? then Effect(Some(NewStream(Idle, false, f.info)), Fine)
    else Effect(Some(s.value.(priority := f.info)), Fine)
  }

  function OnRstStream(s: Option<Stream>): Effect {
    if StateOf(s) == Idle then Effect(CloseAny(s), StreamError)
    else if s.value.state == HalfClosed then Effect(Some(Close(s.value)), Fine)
    else Effect(Some(s.value.(state := HalfClosed)), Fine)
  }

  /** The stream a frame is processed on; the other frames concern the connection. */
  function StreamId(f: Frame): Option<nat> {
    match f
    case Data(id, _, _) => Some(id)
    case Headers(id, _, _, _, _) => Some(id)
    case PriorityFrame(id, _) => Some(id)
    case RstStream(id, _) => Some(id)
    case PushPromise(_, _) => Some(0)
    case WindowUpdate(id, _) => if id == 0 then None else Some(id)
    case Continuation(id, _, _) => Some(id)
    case Settings(_, _) => None
    case Ping(_, _) => None
    case Goaway(_, _, _) => None
  }

  /** The effect of a frame on its stream. PUSH_PROMISE is refused on an idle
      stream, and its stream 0 is always idle. */
  function OnStream(s: Option<Stream>, f: Frame): Effect
    requires StreamId(f).Some? && (f.PushPromise? ==> s.None?)
  {
    match f
    case Data(_, _, _) => OnData(s, f)
    case Headers(_, _, _, _, _) => OnHeaders(s, f)
    case PriorityFrame(_, _) => OnPriority(s, f)
    case RstStream(_, _) => OnRstStream(s)
    case PushPromise(_, _) => Effect(None, StreamError)
    case WindowUpdate(_, _) => Effect(s, Fine)
    case Continuation(_, _, _) => OnContinuation(s, f)
  }

  // ----- the connection

  datatype Limits = Limits(
    headerTableSize: nat,
    enablePush: bool,
    maxConcurrentStreams: nat,
    initialWindowSize: nat,
    maxFrameSize: nat,
    maxHeaderListSize: nat)

  const DEFAULT_HEADER_TABLE_SIZE: nat := 4096

  const DEFAULT_LIMITS :=
    Limits(DEFAULT_HEADER_TABLE_SIZE, true, 0xFFFF_FFFF, 65535, MIN_MAX_FRAME_SIZE, 0xFFFF_FFFF)

  function ApplySetting(limits: Limits, s: Setting): Limits {
    match s.identifier
    case 1 => limits.(headerTableSize := s.value)
    case 2 => limits.(enablePush := s.value != 0)
    case 3 => limits.(maxConcurrentStreams := s.value)
    case 4 => limits.(initialWindowSize := s.value)
    case 5 => limits.(maxFrameSize := s.value)
    case 6 => limits.(maxHeaderListSize := s.value)
    case _ => limits
  }

  function ApplySettings(limits: Limits, entries: seq<Setting>): Limits {
    if entries == [] then limits
    else ApplySetting(ApplySettings(limits, entries[..|entries| - 1]), entries[|entries| - 1])
  }

  /** A new header table size is applied to the table of the decompressor. */
  function ResizeTable(view: View, entries: seq<Setting>): View {
    if entries == [] then view
    else
      var last := entries[|entries| - 1];
      var before := ResizeTable(view, entries[..|entries| - 1]);
      if last.identifier == HEADER_TABLE_SIZE then before.Resize(last.value) else before
  }

  datatype Context = Context(
    limits: Limits,
    streams: map<nat, Stream>,
    lastStreamId: nat,
    closedReason: Option<nat>,
    table: View)

  const INITIAL_CONTEXT :=
    Context(DEFAULT_LIMITS, map[], 0, None, View([], DEFAULT_HEADER_TABLE_SIZE))

  function Find(streams: map<nat, Stream>, id: nat): Option<Stream> {
    if id in streams then Some(streams[id]) else None
  }

  function Store(streams: map<nat, Stream>, id: nat, s: Option<Stream>): map<nat, Stream> {
    if s.Some? then streams[id := s.value] else streams
  }

  datatype Processed = Processed(context: Context, verdict: Verdict)

  function OnConnection(c: Context, f: Frame): Processed
    requires StreamId(f).None?
  {
    match f
    case Settings(ack, entries) =>
      if ack then Processed(c, Fine)
      else Processed(c.(limits := ApplySettings(c.limits, entries), table := ResizeTable(c.table, entries)), Fine)
    case Ping(_, _) => Processed(c, Fine)
    case Goaway(_, errorCode, _) => Processed(c.(closedReason := Some(errorCode)), CloseConnection)
    case WindowUpdate(_, _) => Processed(c, Fine)
  }

  function Process(c: Context, f: Frame): Processed
    requires 0 !in c.streams
  {
    match StreamId(f)
    case None => OnConnection(c, f)
    case Some(id) =>
      var last := if c.lastStreamId < id then id else c.lastStreamId;
      var effect := OnStream(Find(c.streams, id), f);
      Processed(c.(lastStreamId := last, streams := Store(c.streams, id, effect.stream)), effect.verdict)
  }

  /** The upgrade from HTTP/1: its settings, and stream 1 for its request,
      which has ended without a header block. */
  function Upgrade(c: Context, entries: seq<Setting>): Context {
    c.(limits := ApplySettings(c.limits, entries),
       table := ResizeTable(c.table, entries),
       streams := c.streams[1 := NewStream(HalfClosed, true, DEFAULT_PRIORITY)])
  }

  // ----- the machine with its fields

  class Connection {
    var limits: Limits
    var streams: map<nat, Stream>
    var lastStreamId: nat
    var closedReason: Option<nat>
    const decompressor: TableState

    ghost predicate Valid()
      reads this, decompressor, decompressor.table, decompressor.table.entries
    {
      decompressor.Valid() && 0 !in streams
    }

    ghost function Abstract(): Context
      reads this, decompressor, decompressor.table
    {
      Context(limits, streams, lastStreamId, closedReason, decompressor.Abstract())
    }

    constructor ()
      ensures Valid() && Abstract() == INITIAL_CONTEXT
      ensures fresh(decompressor) && fresh(decompressor.table) && fresh(decompressor.table.entries)
    {
      limits, streams, lastStreamId, closedReason := DEFAULT_LIMITS, map[], 0, None;
      decompressor := new TableState(DEFAULT_HEADER_TABLE_SIZE);
    }

    method StreamStateOf(id: nat) returns (state: StreamState)
      ensures state == StateOf(Find(streams, id))
    {
      state := if id in streams then streams[id].state else Idle;
    }

    method CloseByIdentifier(id: nat)
      modifies `streams
      ensures streams == Store(old(streams), id, CloseAny(Find(old(streams), id)))
    {
      if id in streams {
        streams := streams[id := Close(streams[id])];
      }
    }

    method ProcessData(f: Frame) returns (v: Verdict)
      requires f.Data?
      modifies `streams
      ensures Effect(Find(streams, f.id), v) == OnData(Find(old(streams), f.id), f)
      ensures streams == Store(old(streams), f.id, Find(streams, f.id))
    {
      var state := StreamStateOf(f.id);
      if state != Open && state != HalfClosed {
        CloseByIdentifier(f.id);
        return StreamError;
      }
      assert f.id in streams;
      if streams[f.id].endStream {
        CloseByIdentifier(f.id);
        return StreamError;
      }
      if !streams[f.id].headersFinished {
        CloseByIdentifier(f.id);
        return StreamError;
      }
      streams := streams[f.id := streams[f.id].(dataBlocks := streams[f.id].dataBlocks + [f.content])];
      streams := streams[f.id := streams[f.id].(endStream := f.isEnd)];
      if streams[f.id].endStream {
        streams := streams[f.id := streams[f.id].(state := HalfClosed)];
        return Finished(f.id);
      }
      return Fine;
    }

    /** Append a block to an unfinished header list, and report a complete request. */
    method AddBlockTo(id: nat, fragment: Str, endHeaders: bool) returns (v: Verdict)
      requires id in streams && !streams[id].headersFinished
      modifies `streams
      ensures Effect(Find(streams, id), v) == Complete(id, AddHeaderBlock(old(streams)[id], fragment, endHeaders))
      ensures streams == Store(old(streams), id, Find(streams, id))
    {
      streams := streams[id := streams[id].(headerBlocks := streams[id].headerBlocks + [fragment])];
      streams := streams[id := streams[id].(headersFinished := endHeaders)];
      if streams[id].endStream && streams[id].headersFinished {
        streams := streams[id := streams[id].(state := HalfClosed)];
        return Finished(id);
      }
      return Fine;
    }

    method ProcessHeaders(f: Frame) returns (v: Verdict)
      requires f.Headers?
      modifies `streams
      ensures Effect(Find(streams, f.id), v) == OnHeaders(Find(old(streams), f.id), f)
      ensures streams == Store(old(streams), f.id, Find(streams, f.id))
    {
      var state := StreamStateOf(f.id);
      if state != Idle {
        CloseByIdentifier(f.id);
        return StreamError;
      }
      if f.id !in streams {
        var stream := NewStream(Open, f.endStream, DEFAULT_PRIORITY);
        if f.priority.Some? {
          stream := stream.(priority := f.priority.value);
        }
        streams := streams[f.id := stream];
      } else {
        UpdateIdle(f);
        if streams[f.id].headersFinished {
          CloseByIdentifier(f.id);
          return StreamError;
        }
      }
      v := AddBlockTo(f.id, f.fragment, f.endHeaders);
    }

    /** Headers for a stream that PRIORITY has put into the map. */
    method UpdateIdle(f: Frame)
      requires f.Headers? && f.id in streams
      modifies `streams
      ensures var s := old(streams)[f.id];
              var priority := if f.priority.Some? then f.priority.value else s.priority;
              streams == old(streams)[f.id := s.(endStream := s.endStream || f.endStream, priority := priority)]
    {
      streams := streams[f.id := streams[f.id].(endStream := streams[f.id].endStream || f.endStream)];
      if f.priority.Some? {
        streams := streams[f.id := streams[f.id].(priority := f.priority.value)];
      }
    }

    method ProcessContinuation(f: Frame) returns (v: Verdict)
      requires f.Continuation?
      modifies `streams
      ensures Effect(Find(streams, f.id), v) == OnContinuation(Find(old(streams), f.id), f)
      ensures streams == Store(old(streams), f.id, Find(streams, f.id))
    {
      var state := StreamStateOf(f.id);
      if state != Open && state != Reserved {
        CloseByIdentifier(f.id);
        return StreamError;
      }
      assert f.id in streams;
      if streams[f.id].headersFinished || |f.fragment| == 0 {
        CloseByIdentifier(f.id);
        return StreamError;
      }
      v := AddBlockTo(f.id, f.fragment, f.endHeaders);
    }

    method ProcessRstStream(f: Frame) returns (v: Verdict)
      requires f.RstStream?
      modifies `streams
      ensures Effect(Find(streams, f.id), v) == OnRstStream(Find(old(streams), f.id))
      ensures streams == Store(old(streams), f.id, Find(streams, f.id))
    {
      var state := StreamStateOf(f.id);
      if state == Idle {
        CloseByIdentifier(f.id);
        return StreamError;
      }
      assert f.id in streams;
      if streams[f.id].state == HalfClosed {
        CloseByIdentifier(f.id);
      } else {
        streams := streams[f.id := streams[f.id].(state := HalfClosed)];
      }
      return Fine;
    }

    method ProcessForStream(id: nat, f: Frame) returns (v: Verdict)
      requires Valid() && StreamId(f) == Some(id)
      modifies `streams
      ensures Effect(Find(streams, id), v) == OnStream(Find(old(streams), id), f)
      ensures streams == Store(old(streams), id, Find(streams, id))
    {
      match f
      case Data(_, _, _) => v := ProcessData(f);
      case Headers(_, _, _, _, _) => v := ProcessHeaders(f);
      case PriorityFrame(_, info) =>
        streams := streams[id := if id in streams then streams[id].(priority := info)
                                 else NewStream(Idle, false, info)];
        v := Fine;
      case RstStream(_, _) => v := ProcessRstStream(f);
      case PushPromise(_, _) =>
        var state := StreamStateOf(id);
        assert state != Open && state != HalfClosed;
        CloseByIdentifier(id);
        v := StreamError;
      case WindowUpdate(_, _) => v := Fine;
      case Continuation(_, _, _) => v := ProcessContinuation(f);
    }

    method ApplySettingsFrame(entries: seq<Setting>)
      requires Valid()
      modifies `limits, decompressor, decompressor.table, decompressor.table.entries
      ensures Valid()
      ensures decompressor.table.entries == old(decompressor.table.entries) || fresh(decompressor.table.entries)
      ensures limits == ApplySettings(old(limits), entries)
      ensures decompressor.Abstract() == ResizeTable(old(decompressor.Abstract()), entries)
    {
      for i := 0 to |entries|
        invariant Valid()
        invariant decompressor.table.entries == old(decompressor.table.entries) || fresh(decompressor.table.entries)
        invariant limits == ApplySettings(old(limits), entries[..i])
        invariant decompressor.Abstract() == ResizeTable(old(decompressor.Abstract()), entries[..i])
      {
        assert entries[..i + 1][..i] == entries[..i];
        limits := ApplySetting(limits, entries[i]);
        if entries[i].identifier == HEADER_TABLE_SIZE {
          decompressor.Resize(entries[i].value);
        }
      }
      assert entries[..|entries|] == entries;
    }

    /** One frame: the stream it carries, or the connection. */
    method ProcessFrame(f: Frame) returns (v: Verdict)
      requires Valid() && WellFormed(f)
      modifies this, decompressor, decompressor.table, decompressor.table.entries
      ensures Valid()
      ensures decompressor.table.entries == old(decompressor.table.entries) || fresh(decompressor.table.entries)
      ensures Processed(Abstract(), v) == Process(old(Abstract()), f)
    {
      hide OnStream, ApplySettings, ResizeTable;
      match StreamId(f)
      case Some(id) =>
        if lastStreamId < id {
          lastStreamId := id;
        }
        v := ProcessForStream(id, f);
        StreamZeroStaysOut(old(Abstract()), f);
      case None =>
        match f
        case Settings(ack, entries) =>
          if !ack {
            ApplySettingsFrame(entries);
          }
          v := Fine;
        case Ping(_, _) => v := Fine;
        case Goaway(_, errorCode, _) =>
          closedReason := Some(errorCode);
          v := CloseConnection;
        case WindowUpdate(_, _) => v := Fine;
    }
  }

  /** No frame that the parsers let through puts stream 0 into the map. */
  lemma StreamZeroStaysOut(c: Context, f: Frame)
    requires 0 !in c.streams && WellFormed(f)
    ensures 0 !in Process(c, f).context.streams
  {
  }
}
