/** Whole runs of the stream machine: what every reachable state satisfies
    (src/http/v2.c:2021-2740, 3423-3439). */
module StreamRuns {
  import opened Wrappers
  import opened Frames
  import opened Streams
  import HpackTable

  ghost predicate AllWellFormed(frames: seq<Frame>) {
    forall i | 0 <= i < |frames| :: WellFormed(frames[i])
  }

  /** The context after a run of frames. */
  ghost function After(c: Context, frames: seq<Frame>): (r: Context)
    requires 0 !in c.streams && AllWellFormed(frames)
    ensures 0 !in r.streams
    decreases |frames|
  {
    if frames == [] then c
    else
      StreamZeroStaysOut(c, frames[0]);
      After(Process(c, frames[0]).context, frames[1..])
  }

  /** How often the run reports `id` as a finished request. */
  ghost function Reports(c: Context, frames: seq<Frame>, id: nat): nat
    requires 0 !in c.streams && AllWellFormed(frames)
    decreases |frames|
  {
    if frames == [] then 0
    else
      StreamZeroStaysOut(c, frames[0]);
      var p := Process(c, frames[0]);
      (if p.verdict == Finished(id) then 1 else 0) + Reports(p.context, frames[1..], id)
  }

  // ----- at most one report

  /** A stream that can no longer become a finished request. */
  predicate Spent(s: Stream) {
    s.endStream && (s.headersFinished || s.state == HalfClosed || s.state == Closed)
  }

  predicate SpentIn(streams: map<nat, Stream>, id: nat) {
    id in streams && Spent(streams[id])
  }

  /** A report spends its stream; a spent stream stays spent and is not reported. */
  lemma ReportSpends(s: Option<Stream>, f: Frame)
    requires StreamId(f).Some? && (f.PushPromise? ==> s.None?)
    ensures var e := OnStream(s, f);
            && (e.verdict.Finished? ==>
                  && (f.Data? || f.Headers? || f.Continuation?)
                  && e.verdict.id == StreamId(f).value && e.stream.Some? && Spent(e.stream.value))
            && (s.Some? && Spent(s.value) ==>
                  !e.verdict.Finished? && e.stream.Some? && Spent(e.stream.value))
  {
  }

  /** Over every run of frames, from every state, a stream is reported as a
      finished request at most once, and never again once it is spent. */
  lemma {:induction false} ReportedAtMostOnce(c: Context, frames: seq<Frame>, id: nat)
    requires 0 !in c.streams && AllWellFormed(frames)
    ensures Reports(c, frames, id) <= 1
    ensures SpentIn(c.streams, id) ==> Reports(c, frames, id) == 0
    ensures SpentIn(c.streams, id) || Reports(c, frames, id) == 1 ==> SpentIn(After(c, frames).streams, id)
    decreases |frames|
  {
    if frames != [] {
      var f := frames[0];
      StreamZeroStaysOut(c, f);
      var p := Process(c, f);
      if StreamId(f).Some? {
        ReportSpends(Streams.Find(c.streams, StreamId(f).value), f);
      }
      ReportedAtMostOnce(p.context, frames[1..], id);
    }
  }

  /** After an upgrade, the request on stream 1 that came with it is the only one. */
  lemma UpgradedStreamIsNotReported(c: Context, entries: seq<Setting>, frames: seq<Frame>)
    requires 0 !in c.streams && AllWellFormed(frames)
    ensures Reports(Upgrade(c, entries), frames, 1) == 0
  {
    ReportedAtMostOnce(Upgrade(c, entries), frames, 1);
  }

  // ----- what never reverts

  /** `later` is `earlier` some frames on: flags stay set, and a stream that has
      left Idle does not return to it. */
  predicate Onward(earlier: Stream, later: Stream) {
    && (earlier.endStream ==> later.endStream)
    && (earlier.headersFinished ==> later.headersFinished)
    && (earlier.state != Idle ==> later.state != Idle)
  }

  ghost predicate AllOnward(earlier: map<nat, Stream>, later: map<nat, Stream>) {
    forall id | id in earlier :: id in later && Onward(earlier[id], later[id])
  }

  lemma OnwardStep(s: Option<Stream>, f: Frame)
    requires StreamId(f).Some? && (f.PushPromise? ==> s.None?)
    ensures s.Some? ==> OnStream(s, f).stream.Some? && Onward(s.value, OnStream(s, f).stream.value)
  {
  }

  /** Identifiers never leave the map, set flags stay set, nothing returns to
      Idle, and the last stream identifier never decreases. */
  lemma {:induction false} NothingReverts(c: Context, frames: seq<Frame>)
    requires 0 !in c.streams && AllWellFormed(frames)
    ensures AllOnward(c.streams, After(c, frames).streams)
    ensures c.lastStreamId <= After(c, frames).lastStreamId
    decreases |frames|
  {
    if frames != [] {
      var f := frames[0];
      StreamZeroStaysOut(c, f);
      if StreamId(f).Some? {
        OnwardStep(Streams.Find(c.streams, StreamId(f).value), f);
      }
      NothingReverts(Process(c, f).context, frames[1..]);
    }
  }

  // ----- reachable states

  ghost predicate SaneLimits(limits: Limits) {
    && MIN_MAX_FRAME_SIZE <= limits.maxFrameSize <= MAX_MAX_FRAME_SIZE + 1
    && limits.initialWindowSize <= MAX_WINDOW_SIZE
  }

  /** `upgraded` tells whether stream 1 came with an upgrade. */
  ghost predicate Reachable(c: Context, upgraded: bool) {
    && 0 !in c.streams
    && SaneLimits(c.limits)
    && (forall id | id in c.streams :: c.streams[id].state != Reserved)
    && (forall id | id in c.streams :: id <= c.lastStreamId || (upgraded && id == 1))
    && c.table.Valid()
  }

  lemma {:induction false} SettingsStaySane(limits: Limits, entries: seq<Setting>)
    requires SaneLimits(limits) && WellFormed(Settings(false, entries))
    ensures SaneLimits(ApplySettings(limits, entries))
    decreases |entries|
  {
    if entries != [] {
      SettingsStaySane(limits, entries[..|entries| - 1]);
      assert SettingError(entries[|entries| - 1]).None?;
    }
  }

  lemma {:induction false} TableStaysValid(view: HpackTable.View, entries: seq<Setting>)
    requires view.Valid()
    ensures ResizeTable(view, entries).Valid()
    decreases |entries|
  {
    if entries != [] {
      TableStaysValid(view, entries[..|entries| - 1]);
      var before := ResizeTable(view, entries[..|entries| - 1]);
      HpackTable.ResizeKeepsLongestPrefix(before, entries[|entries| - 1].value);
    }
  }

  lemma NotReserved(s: Option<Stream>, f: Frame)
    requires StreamId(f).Some? && (f.PushPromise? ==> s.None?)
    requires s.Some? ==> s.value.state != Reserved
    ensures var e := OnStream(s, f); e.stream.Some? ==> e.stream.value.state != Reserved
  {
  }

  lemma ReachableStep(c: Context, f: Frame, upgraded: bool)
    requires Reachable(c, upgraded) && WellFormed(f)
    ensures Reachable(Process(c, f).context, upgraded)
  {
    hide OnStream, ApplySettings, ResizeTable;
    StreamZeroStaysOut(c, f);
    if StreamId(f).Some? {
      NotReserved(Streams.Find(c.streams, StreamId(f).value), f);
    } else if f.Settings? && !f.ack {
      SettingsStaySane(c.limits, f.entries);
      TableStaysValid(c.table, f.entries);
    }
  }

  /** Every state after a run is safe: stream 0 is not in the map, nothing is
      Reserved, the limits are in range, identifiers are bounded by the last
      one seen, and the table of the decompressor keeps to its maximum. */
  lemma {:induction false} ReachableStatesAreSafe(c: Context, frames: seq<Frame>, upgraded: bool)
    requires Reachable(c, upgraded) && AllWellFormed(frames)
    ensures Reachable(After(c, frames), upgraded)
    decreases |frames|
  {
    if frames != [] {
      ReachableStep(c, frames[0], upgraded);
      ReachableStatesAreSafe(Process(c, frames[0]).context, frames[1..], upgraded);
    }
  }

  lemma InitialIsReachable()
    ensures Reachable(INITIAL_CONTEXT, false)
  {
  }

  lemma UpgradeIsReachable(c: Context, entries: seq<Setting>)
    requires Reachable(c, false) && WellFormed(Settings(false, entries))
    ensures Reachable(Upgrade(c, entries), true)
  {
    SettingsStaySane(c.limits, entries);
    TableStaysValid(c.table, entries);
  }

  // ----- the last stream identifier

  /** No stream is beyond the last one seen. */
  ghost predicate Bounded(c: Context) {
    forall id | id in c.streams :: id <= c.lastStreamId
  }

  /** In a reachable state only stream 1 of an upgrade can be beyond it. */
  lemma BoundedIff(c: Context, upgraded: bool)
    requires Reachable(c, upgraded)
    ensures Bounded(c) <==> (1 in c.streams ==> c.lastStreamId >= 1)
  {
  }

  /** Some frame of the run is processed on a stream other than 0. */
  ghost predicate TouchesStream(frames: seq<Frame>) {
    exists i | 0 <= i < |frames| :: StreamId(frames[i]).Some? && StreamId(frames[i]).value >= 1
  }

  lemma {:induction false} LastStreamIdMoves(c: Context, frames: seq<Frame>)
    requires 0 !in c.streams && AllWellFormed(frames)
    ensures After(c, frames).lastStreamId >= 1 <==> c.lastStreamId >= 1 || TouchesStream(frames)
    decreases |frames|
  {
    hide OnStream, ApplySettings, ResizeTable;
    if frames != [] {
      var f := frames[0];
      StreamZeroStaysOut(c, f);
      LastStreamIdMoves(Process(c, f).context, frames[1..]);
      assert TouchesStream(frames) <==> (StreamId(f).Some? && StreamId(f).value >= 1) || TouchesStream(frames[1..]) by {
        assert forall i | 0 <= i < |frames[1..]| :: frames[1..][i] == frames[i + 1];
        assert forall i | 1 <= i < |frames| :: frames[i] == frames[1..][i - 1];
      }
    }
  }

  /** After an upgrade and any run of frames, no stream is beyond the last one
      seen if and only if a stream had been seen before the upgrade, or a frame
      of the run is processed on one. */
  lemma UpgradedRunIsBoundedIff(c: Context, entries: seq<Setting>, frames: seq<Frame>)
    requires Reachable(c, false) && WellFormed(Settings(false, entries)) && AllWellFormed(frames)
    ensures Bounded(After(Upgrade(c, entries), frames)) <==> c.lastStreamId >= 1 || TouchesStream(frames)
  {
    var start := Upgrade(c, entries);
    UpgradeIsReachable(c, entries);
    ReachableStatesAreSafe(start, frames, true);
    NothingReverts(start, frames);
    BoundedIff(After(start, frames), true);
    LastStreamIdMoves(start, frames);
  }

  /** Right after an upgrade at the start of a connection it is not so. */
  lemma UpgradeSkipsLastStreamId(entries: seq<Setting>)
    ensures !Bounded(Upgrade(INITIAL_CONTEXT, entries))
  {
    assert 1 in Upgrade(INITIAL_CONTEXT, entries).streams;
  }

  // ----- streams do not interfere

  /** The frames of a run that are processed on stream `id`. */
  ghost function FramesOf(frames: seq<Frame>, id: nat): seq<Frame> {
    if frames == [] then []
    else (if StreamId(frames[0]) == Some(id) then [frames[0]] else []) + FramesOf(frames[1..], id)
  }

  /** One stream alone, under its own frames. */
  ghost function Alone(s: Option<Stream>, frames: seq<Frame>): Option<Stream>
    requires forall i | 0 <= i < |frames| :: StreamId(frames[i]).Some? && !frames[i].PushPromise?
    decreases |frames|
  {
    if frames == [] then s else Alone(OnStream(s, frames[0]).stream, frames[1..])
  }

  lemma {:induction false} FramesOfStream(frames: seq<Frame>, id: nat)
    requires id != 0
    ensures forall i | 0 <= i < |FramesOf(frames, id)| ::
              StreamId(FramesOf(frames, id)[i]) == Some(id) && !FramesOf(frames, id)[i].PushPromise?
    decreases |frames|
  {
    if frames != [] {
      FramesOfStream(frames[1..], id);
    }
  }

  /** The state of a stream after any interleaved run is the state it reaches
      under its own frames alone. */
  lemma {:induction false} StreamsDoNotInterfere(c: Context, frames: seq<Frame>, id: nat)
    requires 0 !in c.streams && AllWellFormed(frames) && id != 0
    ensures (FramesOfStream(frames, id);
             Streams.Find(After(c, frames).streams, id) == Alone(Streams.Find(c.streams, id), FramesOf(frames, id)))
    decreases |frames|
  {
    hide OnStream;
    FramesOfStream(frames, id);
    if frames != [] {
      var f := frames[0];
      StreamZeroStaysOut(c, f);
      var next := Process(c, f).context;
      StreamsDoNotInterfere(next, frames[1..], id);
      FramesOfStream(frames[1..], id);
      if StreamId(f) == Some(id) {
        StillThere(Streams.Find(c.streams, id), f);
        assert FramesOf(frames, id)[1..] == FramesOf(frames[1..], id);
      } else {
        assert FramesOf(frames, id) == FramesOf(frames[1..], id);
        assert Streams.Find(next.streams, id) == Streams.Find(c.streams, id);
      }
    }
  }

  /** A stream in the map stays there. */
  lemma StillThere(s: Option<Stream>, f: Frame)
    requires StreamId(f).Some? && (f.PushPromise? ==> s.None?)
    ensures s.Some? ==> OnStream(s, f).stream.Some?
  {
  }

  // ----- closed streams and collected blocks

  ghost predicate OwnFrames(frames: seq<Frame>) {
    forall i | 0 <= i < |frames| :: StreamId(frames[i]).Some? && !frames[i].PushPromise?
  }

  ghost predicate NoReset(frames: seq<Frame>) {
    forall i | 0 <= i < |frames| :: !frames[i].RstStream?
  }

  ghost predicate IsClosed(s: Option<Stream>) {
    StateOf(s) == Closed
  }

  /** A closed stream stays closed over a run without RST_STREAM. */
  lemma {:induction false} ClosedStaysClosed(s: Stream, frames: seq<Frame>)
    requires s.state == Closed && OwnFrames(frames) && NoReset(frames)
    ensures IsClosed(Alone(Some(s), frames))
    decreases |frames|
  {
    if frames != [] {
      ClosedStaysClosed(OnStream(Some(s), frames[0]).stream.value, frames[1..]);
    }
  }

  /** The first RST_STREAM on a closed stream leaves it half closed. */
  lemma FirstResetReopens(s: Stream, frames: seq<Frame>, n: nat)
    requires s.state == Closed && OwnFrames(frames) && n < |frames|
    requires NoReset(frames[..n]) && frames[n].RstStream?
    ensures OwnFrames(frames[..n + 1]) && StateOf(Alone(Some(s), frames[..n + 1])) == HalfClosed
  {
    ClosedStaysClosed(s, frames[..n]);
    assert frames[..n + 1][..n] == frames[..n];
    AloneSnoc(Some(s), frames[..n + 1]);
  }

  lemma {:induction false} FirstReset(frames: seq<Frame>) returns (n: nat)
    requires !NoReset(frames)
    ensures n < |frames| && NoReset(frames[..n]) && frames[n].RstStream?
    decreases |frames|
  {
    var last := |frames| - 1;
    if NoReset(frames[..last]) {
      n := last;
    } else {
      n := FirstReset(frames[..last]);
      assert frames[..last][..n] == frames[..n];
    }
  }

  /** The stream is closed after every prefix of the run. */
  ghost predicate AlwaysClosed(s: Option<Stream>, frames: seq<Frame>)
    requires OwnFrames(frames)
  {
    forall n | 0 <= n <= |frames| :: IsClosed(Alone(s, frames[..n]))
  }

  /** Closed is absorbing over a run if and only if the run has no RST_STREAM. */
  lemma ClosedIsAbsorbingIff(s: Stream, frames: seq<Frame>)
    requires s.state == Closed && OwnFrames(frames)
    ensures AlwaysClosed(Some(s), frames) <==> NoReset(frames)
  {
    if NoReset(frames) {
      forall n | 0 <= n <= |frames|
        ensures IsClosed(Alone(Some(s), frames[..n]))
      {
        ClosedStaysClosed(s, frames[..n]);
      }
    } else {
      var n := FirstReset(frames);
      FirstResetReopens(s, frames, n);
      assert !IsClosed(Alone(Some(s), frames[..n + 1]));
    }
  }

  /** The stream is closed in the connection after every prefix of the run. */
  ghost predicate AlwaysClosedIn(c: Context, frames: seq<Frame>, id: nat)
    requires 0 !in c.streams && AllWellFormed(frames)
  {
    forall n | 0 <= n <= |frames| :: IsClosed(Streams.Find(After(c, frames[..n]).streams, id))
  }

  lemma AlwaysClosedHead(c: Context, frames: seq<Frame>, id: nat)
    requires 0 !in c.streams && AllWellFormed(frames) && frames != []
    requires 0 !in Process(c, frames[0]).context.streams
    ensures AlwaysClosedIn(c, frames, id) <==>
            IsClosed(Streams.Find(c.streams, id)) && AlwaysClosedIn(Process(c, frames[0]).context, frames[1..], id)
  {
    hide Process, IsClosed;
    var next := Process(c, frames[0]).context;
    assert After(c, frames[..0]) == c;
    forall n | 1 <= n <= |frames|
      ensures After(c, frames[..n]) == After(next, frames[1..][..n - 1])
    {
      assert frames[..n][1..] == frames[1..][..n - 1];
    }
    if AlwaysClosedIn(c, frames, id) {
      forall n | 0 <= n <= |frames[1..]|
        ensures IsClosed(Streams.Find(After(next, frames[1..][..n]).streams, id))
      {
        assert After(c, frames[..n + 1]) == After(next, frames[1..][..n]);
      }
    }
  }

  /** The same on a connection, whatever the other streams do: a closed stream
      is closed after every prefix of the run if and only if none of its frames
      is RST_STREAM. */
  lemma {:induction false} ClosedOnConnectionIff(c: Context, frames: seq<Frame>, id: nat)
    requires 0 !in c.streams && AllWellFormed(frames) && id in c.streams && c.streams[id].state == Closed
    ensures AlwaysClosedIn(c, frames, id) <==> NoReset(FramesOf(frames, id))
    decreases |frames|
  {
    hide AlwaysClosedIn;
    if frames == [] {
      NothingReopens(c, frames, id);
    } else {
      var f := frames[0];
      StreamZeroStaysOut(c, f);
      var next := Process(c, f).context;
      AlwaysClosedHead(c, frames, id);
      assert NoReset(FramesOf(frames, id)) <==>
             !(StreamId(f) == Some(id) && f.RstStream?) && NoReset(FramesOf(frames[1..], id)) by {
        NoResetHead(frames, id);
      }
      if StreamId(f) == Some(id) && f.RstStream? {
        StillClosed(next, frames[1..], id);
      } else {
        ClosedOnConnectionIff(next, frames[1..], id);
      }
    }
  }

  lemma NothingReopens(c: Context, frames: seq<Frame>, id: nat)
    requires 0 !in c.streams && frames == [] && id in c.streams && c.streams[id].state == Closed
    ensures AlwaysClosedIn(c, frames, id)
  {
  }

  lemma StillClosed(c: Context, frames: seq<Frame>, id: nat)
    requires 0 !in c.streams && AllWellFormed(frames)
    ensures AlwaysClosedIn(c, frames, id) ==> IsClosed(Streams.Find(c.streams, id))
  {
    assert After(c, frames[..0]) == c;
  }

  lemma NoResetHead(frames: seq<Frame>, id: nat)
    requires frames != []
    ensures NoReset(FramesOf(frames, id)) <==>
            !(StreamId(frames[0]) == Some(id) && frames[0].RstStream?) && NoReset(FramesOf(frames[1..], id))
  {
    var rest := FramesOf(frames[1..], id);
    if StreamId(frames[0]) == Some(id) {
      assert FramesOf(frames, id)[1..] == rest;
      assert forall i | 0 <= i < |rest| :: rest[i] == FramesOf(frames, id)[i + 1];
      assert forall i | 1 <= i < |rest| + 1 :: FramesOf(frames, id)[i] == rest[i - 1];
    } else {
      assert FramesOf(frames, id) == rest;
    }
  }

  /** What closes a stream: a refused frame, or RST_STREAM when it is half closed. */
  lemma ClosesIff(s: Stream, f: Frame)
    requires s.state != Closed && StreamId(f).Some? && !f.PushPromise?
    ensures var e := OnStream(Some(s), f);
            IsClosed(e.stream) <==> e.verdict == StreamError || (f.RstStream? && s.state == HalfClosed)
  {
  }

  /** The frames from the one that put the stream into the map. */
  ghost function SinceEntry(frames: seq<Frame>): seq<Frame> {
    if frames == [] || frames[0].Headers? || frames[0].PriorityFrame? then frames
    else SinceEntry(frames[1..])
  }

  /** The header fragments of the frames, in order. */
  ghost function Fragments(frames: seq<Frame>): seq<Str> {
    if frames == [] then []
    else
      var last := frames[|frames| - 1];
      var before := Fragments(frames[..|frames| - 1]);
      match last
      case Headers(_, _, fragment, _, _) => before + [fragment]
      case Continuation(_, fragment, _) => before + [fragment]
      case _ => before
  }

  /** The DATA payloads of the frames, in order. */
  ghost function Contents(frames: seq<Frame>): seq<Str> {
    if frames == [] then []
    else
      var last := frames[|frames| - 1];
      var before := Contents(frames[..|frames| - 1]);
      if last.Data? then before + [last.content] else before
  }

  /** The blocks of the stream are exactly what arrived since its entry. */
  ghost predicate Holds(s: Stream, frames: seq<Frame>) {
    s.headerBlocks == Fragments(SinceEntry(frames)) && s.dataBlocks == Contents(SinceEntry(frames))
  }

  /** No prefix of the frames leaves the stream closed. */
  ghost predicate NeverClosed(frames: seq<Frame>)
    requires OwnFrames(frames)
  {
    forall n | 0 <= n <= |frames| :: !IsClosed(Alone(None, frames[..n]))
  }

  lemma NeverClosedSnoc(frames: seq<Frame>)
    requires OwnFrames(frames) && frames != []
    ensures var before := frames[..|frames| - 1];
            OwnFrames(before) && (NeverClosed(frames) <==> NeverClosed(before) && !IsClosed(Alone(None, frames)))
  {
    hide Alone, IsClosed;
    var before := frames[..|frames| - 1];
    assert frames[..|frames|] == frames;
    assert forall n | 0 <= n <= |before| :: before[..n] == frames[..n];
  }

  /** What a stream keeps of its frames: everything as long as it was never
      `closed`, and no header block from then on. */
  ghost predicate Keeps(s: Option<Stream>, frames: seq<Frame>, closed: bool) {
    match s
    case None => SinceEntry(frames) == [] && !closed
    case Some(stream) =>
      && SinceEntry(frames) != []
      && (stream.headersFinished || stream.dataBlocks != [] ==> Fragments(SinceEntry(frames)) != [])
      && (stream.dataBlocks != [] ==> stream.headersFinished)
      && if closed then stream.headerBlocks == [] && (stream.state == Closed || stream.state == HalfClosed)
         else stream.state != Closed && Holds(stream, frames)
  }

  lemma {:induction false} SinceEntrySnoc(frames: seq<Frame>, f: Frame)
    ensures SinceEntry(frames + [f])
         == if SinceEntry(frames) != [] then SinceEntry(frames) + [f]
            else if f.Headers? || f.PriorityFrame? then [f]
            else []
    decreases |frames|
  {
    if frames == [] {
      assert frames + [f] == [f];
      assert [f][1..] == [];
    } else {
      assert (frames + [f])[0] == frames[0];
      if !(frames[0].Headers? || frames[0].PriorityFrame?) {
        assert (frames + [f])[1..] == frames[1..] + [f];
        SinceEntrySnoc(frames[1..], f);
      }
    }
  }

  lemma KeepsStep(s: Option<Stream>, frames: seq<Frame>, f: Frame, closed: bool)
    requires Keeps(s, frames, closed) && StreamId(f).Some? && !f.PushPromise?
    ensures var after := OnStream(s, f).stream;
            Keeps(after, frames + [f], closed || IsClosed(after))
  {
    hide SinceEntry, Fragments, Contents;
    SinceEntrySnoc(frames, f);
    var kept := SinceEntry(frames);
    BlocksSnoc(kept, f);
    BlocksSnoc([], f);
    assert [] + [f] == [f];
    EmptyBlocks();
  }

  lemma BlocksSnoc(kept: seq<Frame>, f: Frame)
    ensures Fragments(kept + [f])
         == if f.Headers? || f.Continuation? then Fragments(kept) + [f.fragment] else Fragments(kept)
    ensures Contents(kept + [f]) == if f.Data? then Contents(kept) + [f.content] else Contents(kept)
  {
    assert (kept + [f])[..|kept|] == kept;
  }

  lemma EmptyBlocks()
    ensures Fragments([]) == [] && Contents([]) == []
  {
  }

  lemma {:induction false} AloneSnoc(s: Option<Stream>, frames: seq<Frame>)
    requires OwnFrames(frames) && frames != []
    ensures var before := frames[..|frames| - 1];
            OwnFrames(before) && Alone(s, frames) == OnStream(Alone(s, before), frames[|frames| - 1]).stream
    decreases |frames|
  {
    hide OnStream;
    var last := |frames| - 1;
    if last > 0 {
      assert frames[1..][..last - 1] == frames[..last][1..];
      AloneSnoc(OnStream(s, frames[0]).stream, frames[1..]);
    } else {
      assert frames[1..] == [] && frames[..0] == [];
    }
  }

  lemma {:induction false} KeepsAll(frames: seq<Frame>)
    requires OwnFrames(frames)
    ensures Keeps(Alone(None, frames), frames, !NeverClosed(frames))
    decreases |frames|
  {
    hide Keeps, NeverClosed;
    if frames == [] {
      NothingKept();
      assert frames == [];
    } else {
      var last := |frames| - 1;
      AloneSnoc(None, frames);
      NeverClosedSnoc(frames);
      KeepsAll(frames[..last]);
      KeepsStep(Alone(None, frames[..last]), frames[..last], frames[last], !NeverClosed(frames[..last]));
      assert frames == frames[..last] + [frames[last]];
    }
  }

  lemma NothingKept()
    ensures Keeps(None, [], false) && NeverClosed([])
  {
  }

  /** A stream in the map holds exactly the header fragments and the payloads
      that arrived since it entered, in order, if and only if none of its frames
      left it closed or nothing has arrived. Resets that do not close it are
      harmless. */
  lemma BlocksAreWhatArrived(frames: seq<Frame>)
    requires OwnFrames(frames)
    ensures var s := Alone(None, frames);
            var own := SinceEntry(frames);
            && (s.Some? <==> own != [])
            && (s.Some? ==>
                  (Holds(s.value, frames) <==> NeverClosed(frames) || (Fragments(own) == [] && Contents(own) == [])))
  {
    hide NeverClosed, Alone;
    KeepsAll(frames);
  }

  /** A report leaves the stream open to reading, so its blocks are all there. */
  lemma ReportedIsNotClosed(s: Option<Stream>, f: Frame)
    requires StreamId(f).Some? && (f.PushPromise? ==> s.None?) && OnStream(s, f).verdict.Finished?
    ensures OnStream(s, f).stream.Some?
    ensures var stream := OnStream(s, f).stream.value;
            stream.state == HalfClosed && stream.headersFinished && stream.endStream
  {
  }

  /** A request that a connection reports, however its frames were interleaved
      with those of other streams: its blocks are exactly the header fragments
      and payloads of its own frames, in order, if and only if none of these
      left the stream closed. Otherwise it is reported without any header block. */
  lemma ReportedRequestIsWholeIff(c: Context, frames: seq<Frame>, f: Frame, id: nat)
    requires 0 !in c.streams && id !in c.streams && AllWellFormed(frames) && WellFormed(f)
    requires Process(After(c, frames), f).verdict == Finished(id)
    ensures OwnFrames(FramesOf(frames, id) + [f])
    ensures var streams := Process(After(c, frames), f).context.streams;
            var own := FramesOf(frames, id) + [f];
            && id in streams && streams[id].headersFinished && streams[id].endStream
            && Fragments(SinceEntry(own)) != []
            && (Holds(streams[id], own) <==> NeverClosed(own))
            && (!NeverClosed(own) ==> streams[id].headerBlocks == [])
  {
    hide SinceEntry, Fragments, Contents, NeverClosed, OnStream;
    var before := After(c, frames);
    var s := Streams.Find(before.streams, id);
    ReportSpends(Streams.Find(before.streams, StreamId(f).value), f);
    FramesOfStream(frames, id);
    StreamsDoNotInterfere(c, frames, id);
    ReportedIsNotClosed(s, f);
    var own := FramesOf(frames, id) + [f];
    assert own[..|own| - 1] == FramesOf(frames, id);
    AloneSnoc(None, own);
    KeepsAll(own);
  }

  lemma AloneCons(s: Option<Stream>, f: Frame, frames: seq<Frame>)
    requires StreamId(f).Some? && !f.PushPromise? && OwnFrames(frames)
    ensures OwnFrames([f] + frames)
    ensures Alone(s, [f] + frames) == Alone(OnStream(s, f).stream, frames)
  {
    hide OnStream;
    assert ([f] + frames)[1..] == frames;
  }

  /** A single reset before the end of a request is harmless. */
  lemma SingleResetKeepsBlocks(id: nat, a: Str, b: Str)
    requires id != 0
    ensures var frames := [Headers(id, None, a, false, true), RstStream(id, 0)];
            var e := OnStream(Alone(None, frames), Data(id, b, true));
            && e.verdict == Finished(id)
            && e.stream.Some? && e.stream.value.headerBlocks == [a] && e.stream.value.dataBlocks == [b]
  {
    var headers, reset := Headers(id, None, a, false, true), RstStream(id, 0);
    assert [headers, reset] == [headers] + [reset] && [reset] == [reset] + [];
    var s1 := OnStream(None, headers).stream;
    var s2 := OnStream(s1, reset).stream;
    assert [] + [a] == [a] && [] + [b] == [b];
    assert s2 == Some(Stream(HalfClosed, true, [a], [], false, DEFAULT_PRIORITY));
    AloneCons(None, headers, [reset]);
    AloneCons(s1, reset, []);
  }

  /** Three of them are not: the stream is closed in between, and reported without its headers. */
  lemma ResetLosesBlocks(id: nat, a: Str, b: Str)
    requires id != 0
    ensures var frames := [Headers(id, None, a, false, true), RstStream(id, 0), RstStream(id, 0), RstStream(id, 0)];
            var e := OnStream(Alone(None, frames), Data(id, b, true));
            e.verdict == Finished(id) && e.stream.Some? && e.stream.value.headerBlocks == []
  {
    var headers, reset := Headers(id, None, a, false, true), RstStream(id, 0);
    assert [headers, reset, reset, reset] == [headers] + [reset, reset, reset];
    assert [reset, reset, reset] == [reset] + [reset, reset] && [reset, reset] == [reset] + [reset];
    assert [reset] == [reset] + [];
    var s1 := OnStream(None, headers).stream;
    var s2 := OnStream(s1, reset).stream;
    var s3 := OnStream(s2, reset).stream;
    var s4 := OnStream(s3, reset).stream;
    assert s4 == Some(Stream(HalfClosed, true, [], [], false, DEFAULT_PRIORITY));
    AloneCons(None, headers, [reset, reset, reset]);
    AloneCons(s1, reset, [reset, reset]);
    AloneCons(s2, reset, [reset]);
    AloneCons(s3, reset, []);
  }
}
