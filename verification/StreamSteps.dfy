/** Single frames and settings, told by what can be observed of them: which
    frames a stream refuses, when it is a request, what each frame leaves of
    it, and what a run leaves of the connection (src/http/v2.c:1779-2740;
    sections 5.1 and 6 of RFC 7540). */
module StreamSteps {
  import opened Wrappers
  import opened Frames
  import opened HpackTable
  import opened Streams
  import opened StreamRuns

  // ----- settings

  /** The value of the last entry with that identifier. */
  function LastValue(entries: seq<Setting>, identifier: nat): Option<nat> {
    if entries == [] then None
    else if entries[|entries| - 1].identifier == identifier then Some(entries[|entries| - 1].value)
    else LastValue(entries[..|entries| - 1], identifier)
  }

  function ValueOr(entries: seq<Setting>, identifier: nat, otherwise: nat): nat {
    match LastValue(entries, identifier)
    case Some(v) => v
    case None => otherwise
  }

  /** Section 6.5.2 of RFC 7540: the last entry of each identifier counts, the
      limits without one stay, and push is enabled by every value but 0. */
  lemma {:induction false} LastSettingCounts(limits: Limits, entries: seq<Setting>)
    ensures var r := ApplySettings(limits, entries);
            && r.headerTableSize == ValueOr(entries, 1, limits.headerTableSize)
            && (r.enablePush <==> ValueOr(entries, 2, if limits.enablePush then 1 else 0) != 0)
            && r.maxConcurrentStreams == ValueOr(entries, 3, limits.maxConcurrentStreams)
            && r.initialWindowSize == ValueOr(entries, 4, limits.initialWindowSize)
            && r.maxFrameSize == ValueOr(entries, 5, limits.maxFrameSize)
            && r.maxHeaderListSize == ValueOr(entries, 6, limits.maxHeaderListSize)
    decreases |entries|
  {
    if entries != [] {
      LastSettingCounts(limits, entries[..|entries| - 1]);
    }
  }

  /** The smallest table size among the entries. */
  function SmallestTable(entries: seq<Setting>): Option<nat> {
    if entries == [] then None
    else
      var last := entries[|entries| - 1];
      var before := SmallestTable(entries[..|entries| - 1]);
      if last.identifier != 1 || (before.Some? && before.value <= last.value) then before else Some(last.value)
  }

  lemma {:induction false} FittingTwice(entries: seq<Entry>, a: nat, b: nat)
    ensures Fitting(Fitting(entries, a), b) == Fitting(entries, if a <= b then a else b)
    decreases |entries|
  {
    if TotalSize(entries) > a {
      FittingTwice(entries[..|entries| - 1], a, b);
    }
  }

  /** The decompressor's table takes the last size as its maximum, and keeps
      what fits the smallest one on the way. */
  lemma {:induction false} SettingsResizeTable(view: View, entries: seq<Setting>)
    ensures var r := ResizeTable(view, entries);
            && r.maxBytes == ValueOr(entries, 1, view.maxBytes)
            && r.entries == match SmallestTable(entries)
                            case None => view.entries
                            case Some(n) => Fitting(view.entries, n)
    decreases |entries|
  {
    hide Fitting;
    if entries != [] {
      var before := entries[..|entries| - 1];
      SettingsResizeTable(view, before);
      if SmallestTable(before).Some? {
        FittingTwice(view.entries, SmallestTable(before).value, entries[|entries| - 1].value);
      }
    }
  }

  // ----- one frame on one stream

  /** Which frames are refused: by the state of the stream, by its flags, and
      never more than one header list. */
  lemma RefusedIff(s: Option<Stream>, f: Frame)
    requires StreamId(f).Some? && !f.PushPromise? && (s.Some? ==> s.value.state != Reserved)
    ensures OnStream(s, f).verdict == StreamError <==>
            match f
            case Data(_, _, _) =>
              s.None? || s.value.state in {Idle, Closed} || s.value.endStream || !s.value.headersFinished
            case Headers(_, _, _, _, _) => s.Some? && (s.value.state != Idle || s.value.headersFinished)
            case Continuation(_, fragment, _) =>
              s.None? || s.value.state != Open || s.value.headersFinished || fragment == []
            case RstStream(_, _) => s.None? || s.value.state == Idle
            case _ => false
  {
  }

  /** A PUSH_PROMISE is refused and leaves no stream. */
  lemma PushPromiseIsRefused(fragment: Str, endHeaders: bool)
    ensures OnStream(None, PushPromise(fragment, endHeaders)) == Effect(None, StreamError)
  {
  }

  /** A refused frame closes the stream if there is one, and its blocks are gone. */
  lemma RefusalCloses(s: Option<Stream>, f: Frame)
    requires StreamId(f).Some? && !f.PushPromise? && OnStream(s, f).verdict == StreamError
    ensures var after := OnStream(s, f).stream;
            && (s.None? <==> after.None?)
            && (s.Some? ==>
                  && after.value.state == Closed && after.value.headerBlocks == after.value.dataBlocks == []
                  && after.value.headersFinished == s.value.headersFinished)
  {
  }

  function HeadersDone(s: Option<Stream>): bool {
    s.Some? && s.value.headersFinished
  }

  function EndSeen(s: Option<Stream>): bool {
    s.Some? && s.value.endStream
  }

  /** A request is reported by the frame that brings the last of its three
      parts: all header fragments, the end of the stream, and itself. */
  lemma FinishedIff(s: Option<Stream>, f: Frame)
    requires StreamId(f).Some? && !f.PushPromise? && OnStream(s, f).verdict != StreamError
    ensures OnStream(s, f).verdict == Finished(StreamId(f).value) <==>
            match f
            case Data(_, _, isEnd) => isEnd
            case Headers(_, _, _, endStream, endHeaders) => (endStream || EndSeen(s)) && endHeaders
            case Continuation(_, _, endHeaders) => EndSeen(s) && endHeaders
            case _ => false
    ensures OnStream(s, f).verdict == Finished(StreamId(f).value) || OnStream(s, f).verdict == Fine
  {
  }

  /** What an accepted frame leaves: the state it moves to, and the one block,
      flag or priority that it brings. */
  lemma AcceptedFrame(s: Option<Stream>, f: Frame)
    requires StreamId(f).Some? && !f.PushPromise? && !f.WindowUpdate? && OnStream(s, f).verdict != StreamError
    ensures OnStream(s, f).stream.Some?
    ensures var e := OnStream(s, f);
            var after := e.stream.value;
            && after.state == (if e.verdict != Fine then HalfClosed
                               else if f.RstStream? then (if StateOf(s) == HalfClosed then Closed else HalfClosed)
                               else if s.None? && f.Headers? then Open
                               else StateOf(s))
            && (after.endStream <==> EndSeen(s) || (f.Data? && f.isEnd) || (f.Headers? && f.endStream))
            && (after.headersFinished <==> HeadersDone(s) || ((f.Headers? || f.Continuation?) && f.endHeaders))
  {
  }

  lemma AcceptedBlocks(s: Option<Stream>, f: Frame)
    requires StreamId(f).Some? && !f.PushPromise? && !f.WindowUpdate? && OnStream(s, f).verdict != StreamError
    requires !IsClosed(OnStream(s, f).stream)
    ensures OnStream(s, f).stream.Some?
    ensures var after := OnStream(s, f).stream.value;
            && after.headerBlocks == (if s.Some? then s.value.headerBlocks else [])
                                     + (if f.Headers? || f.Continuation? then [f.fragment] else [])
            && after.dataBlocks == (if s.Some? then s.value.dataBlocks else []) + (if f.Data? then [f.content] else [])
  {
  }

  /** Section 5.3 of RFC 7540: the priority is that of the last frame that
      carried one to the stream, by default weight 16 on stream 0. HEADERS
      counts only on a stream that is idle. */
  lemma PriorityIsTheLastOne(s: Option<Stream>, f: Frame)
    requires StreamId(f).Some? && !f.PushPromise? && OnStream(s, f).stream.Some?
    ensures OnStream(s, f).stream.value.priority
         == if f.PriorityFrame? then f.info
            else if f.Headers? && StateOf(s) == Idle && f.priority.Some? then f.priority.value
            else if s.Some? then s.value.priority
            else Priority(false, 0, 16)
  {
  }

  /** WINDOW_UPDATE changes nothing, PRIORITY nothing but the priority, and on
      an unused stream it leaves one that is idle and empty. */
  lemma PriorityAndWindow(s: Option<Stream>, id: nat, info: Priority, increment: nat)
    requires id != 0
    ensures OnStream(s, WindowUpdate(id, increment)) == Effect(s, Fine)
    ensures OnStream(None, PriorityFrame(id, info)) == Effect(Some(Stream(Idle, false, [], [], false, info)), Fine)
    ensures s.Some? ==>
              OnStream(s, PriorityFrame(id, info))
              == Effect(Some(Stream(s.value.state, s.value.headersFinished, s.value.headerBlocks, s.value.dataBlocks,
                                    s.value.endStream, info)), Fine)
  {
  }

  // ----- the connection

  /** The start: the defaults of section 6.5.2 of RFC 7540, no stream, and an
      empty table. */
  lemma Defaults()
    ensures INITIAL_CONTEXT
         == Context(Limits(4096, true, 0xFFFF_FFFF, 65535, 16384, 0xFFFF_FFFF), map[], 0, None, View([], 4096))
  {
  }

  /** All settings entries of a run, acknowledgements left out. */
  function AllEntries(frames: seq<Frame>): seq<Setting> {
    if frames == [] then []
    else
      (if frames[0].Settings? && !frames[0].ack then frames[0].entries else []) + AllEntries(frames[1..])
  }

  /** The error code of the last GOAWAY of a run. */
  function LastReason(frames: seq<Frame>, otherwise: Option<nat>): Option<nat> {
    if frames == [] then otherwise
    else LastReason(frames[1..], if frames[0].Goaway? then Some(frames[0].errorCode) else otherwise)
  }

  /** The identifier in the header of a frame; SETTINGS, PING, GOAWAY and
      PUSH_PROMISE carry 0. */
  function CarriedId(f: Frame): nat {
    match f
    case Settings(_, _) => 0
    case PushPromise(_, _) => 0
    case Ping(_, _) => 0
    case Goaway(_, _, _) => 0
    case _ => f.id
  }

  /** The largest identifier of a run. */
  function LargestId(frames: seq<Frame>, otherwise: nat): nat {
    if frames == [] then otherwise
    else LargestId(frames[1..], if otherwise < CarriedId(frames[0]) then CarriedId(frames[0]) else otherwise)
  }

  lemma {:induction false} ApplyBoth(limits: Limits, view: View, first: seq<Setting>, second: seq<Setting>)
    ensures ApplySettings(limits, first + second) == ApplySettings(ApplySettings(limits, first), second)
    ensures ResizeTable(view, first + second) == ResizeTable(ResizeTable(view, first), second)
    decreases |second|
  {
    if second == [] {
      assert first + second == first;
    } else {
      var last := |second| - 1;
      assert (first + second)[..|first| + last] == first + second[..last];
      ApplyBoth(limits, view, first, second[..last]);
    }
  }

  /** What a run leaves of the connection, streams aside: the limits and the
      table that its settings make one after the other, the largest identifier
      it carried, and the reason of the last GOAWAY. */
  lemma {:induction false} RunLeaves(c: Context, frames: seq<Frame>)
    requires 0 !in c.streams && AllWellFormed(frames)
    ensures var r := After(c, frames);
            && r.limits == ApplySettings(c.limits, AllEntries(frames))
            && r.table == ResizeTable(c.table, AllEntries(frames))
            && r.lastStreamId == LargestId(frames, c.lastStreamId)
            && r.closedReason == LastReason(frames, c.closedReason)
    decreases |frames|
  {
    hide OnStream, ApplySettings, ResizeTable;
    NoSettings(c.limits, c.table);
    if frames != [] {
      var f := frames[0];
      StreamZeroStaysOut(c, f);
      RunLeaves(Process(c, f).context, frames[1..]);
      if f.Settings? && !f.ack {
        ApplyBoth(c.limits, c.table, f.entries, AllEntries(frames[1..]));
      } else {
        assert AllEntries(frames) == AllEntries(frames[1..]);
      }
    }
  }

  lemma NoSettings(limits: Limits, view: View)
    ensures ApplySettings(limits, []) == limits && ResizeTable(view, []) == view
  {
  }

  /** Only GOAWAY closes the connection; the other frames of the connection are
      processed without a word. */
  lemma ConnectionVerdicts(c: Context, f: Frame)
    requires 0 !in c.streams && WellFormed(f) && StreamId(f).None?
    ensures Process(c, f).verdict == if f.Goaway? then CloseConnection else Fine
    ensures Process(c, f).context.streams == c.streams
  {
    hide ApplySettings, ResizeTable;
  }

  /** An upgrade is its settings, and a stream 1 that refuses every further part
      of a request. */
  lemma UpgradedStream(c: Context, entries: seq<Setting>, f: Frame)
    requires 0 !in c.streams && WellFormed(Settings(false, entries))
    ensures var up := Upgrade(c, entries);
            var applied := Process(c, Settings(false, entries)).context;
            && up.limits == applied.limits && up.table == applied.table
            && up.lastStreamId == c.lastStreamId && up.closedReason == c.closedReason
            && 1 in up.streams && (forall id | id != 1 :: Streams.Find(up.streams, id) == Streams.Find(c.streams, id))
            && (f.Data? || f.Headers? || f.Continuation? ==>
                  OnStream(Some(up.streams[1]), f).verdict == StreamError)
            && up.streams[1] == Stream(HalfClosed, false, [], [], true, Priority(false, 0, 16))
  {
    hide ApplySettings, ResizeTable;
  }
}
