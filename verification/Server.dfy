/** From the bytes of a connection to a request, and the whole way of a
    request from one end to the other (src/http/v2.c:3014-3163). */
module Server {
  import opened Wrappers
  import opened Frames
  import opened FrameWriter
  import opened FrameReader
  import opened Streams
  import opened StreamRuns
  import opened Fragmentation
  import opened HpackTable
  import opened HpackLookup
  import opened HpackCodec
  import opened RequestHead
  import opened HpackRoundTrip
  import Hpack
  import PrefixInteger
  import BR = BufferedReader

  /** Reading frames until a request is complete. */
  datatype Served =
    | Ready(id: nat, context: Context, rest: Str)
    | ReadError(context: Context)
    | PeerLeft(context: Context, rest: Str)

  function NextFrame(c: Context, u: Str): (r: Parsed<Frame>)
    requires 0 !in c.streams
    ensures r.Good? ==> 0 < r.used <= |u| && WellFormed(r.item) && 0 !in Process(c, r.item).context.streams
  {
    var r := ParseFrame(c.limits.maxFrameSize, c.limits.enablePush, u);
    assert r.Good? ==> 0 < r.used <= |u| && WellFormed(r.item) && 0 !in Process(c, r.item).context.streams by {
      if r.Good? {
        FramingIsExact(c.limits.maxFrameSize, c.limits.enablePush, u);
        ParsedIsWellFormed(c.limits.maxFrameSize, c.limits.enablePush, u);
        StreamZeroStaysOut(c, r.item);
      }
    }
    r
  }

  function Serve(c: Context, u: Str): (r: Served)
    requires 0 !in c.streams
    decreases |u|
  {
    match NextFrame(c, u)
    case Bad(_) => ReadError(c)
    case Good(f, used) =>
      var p := Process(c, f);
      match p.verdict
      case Finished(id) => Ready(id, p.context, u[used..])
      case CloseConnection => PeerLeft(p.context, u[used..])
      case _ => Serve(p.context, u[used..])
  }

  /** A reported stream is in the map. */
  lemma {:induction false} ReadyIsStored(c: Context, u: Str)
    requires 0 !in c.streams
    ensures var r := Serve(c, u);
            && (r.Ready? ==> 0 !in r.context.streams && r.id in r.context.streams)
            && (r.PeerLeft? ==> 0 !in r.context.streams)
            && (r.ReadError? ==> 0 !in r.context.streams)
    decreases |u|
  {
    hide ParseFrame, OnStream, ApplySettings, ResizeTable;
    var next := NextFrame(c, u);
    if next.Good? {
      var p := Process(c, next.item);
      if StreamId(next.item).Some? {
        ReportSpends(Streams.Find(c.streams, StreamId(next.item).value), next.item);
      }
      if !p.verdict.Finished? && !p.verdict.CloseConnection? {
        ReadyIsStored(p.context, u[next.used..]);
      }
    }
  }

  // ----- the loop over the reader

  datatype RequestResult = GotRequest(id: nat, head: Head, body: Str) | RequestError | ConnectionClosed

  /** What a served stream becomes: its header block is decompressed with the
      table of the connection, its fields must form a head. */
  ghost predicate IsRequestOf(cfg: Config, rules: Rules, r: RequestResult, id: nat, c: Context, after: Context)
    requires cfg.tree.Node? && id in c.streams
  {
    var decoded := DecodeBlock(cfg, c.table, Concat(c.streams[id].headerBlocks));
    && after == c.(table := decoded.view)
    && if decoded.result.Ok? && IsRequestHead(rules, decoded.result.value) then
         && r.GotRequest? && r.id == id && r.body == Concat(c.streams[id].dataBlocks)
         && IsHeadOf(r.head, decoded.result.value)
       else r == RequestError
  }

  method RequestFromStream(conn: Connection, cfg: Config, rules: Rules, id: nat) returns (r: RequestResult)
    requires conn.Valid() && cfg.tree.Node? && id in conn.streams
    modifies conn.decompressor, conn.decompressor.table, conn.decompressor.table.entries
    ensures conn.Valid()
    ensures conn.decompressor.table.entries == old(conn.decompressor.table.entries)
            || fresh(conn.decompressor.table.entries)
    ensures IsRequestOf(cfg, rules, r, id, old(conn.Abstract()), conn.Abstract())
  {
    hide DecodeBlock, IsRequestHead, IsHeadOf;
    var block := ConcatDataBlocks(conn.streams[id].headerBlocks);
    var decoded := Hpack.Decompress(cfg, conn.decompressor, block);
    if decoded.Err? {
      return RequestError;
    }
    var head := ParseHead(rules, decoded.value);
    if head.Err? {
      return RequestError;
    }
    var body := ConcatDataBlocks(conn.streams[id].dataBlocks);
    r := GotRequest(id, head.value, body);
  }

  /** Read and process frames until a request is complete. */
  method ServeFrames(conn: Connection, reader: BR.Reader) returns (ready: Option<nat>, left: bool)
    requires conn.Valid() && reader.Valid() && reader.Abstract().Open?
    modifies conn, conn.decompressor, conn.decompressor.table, conn.decompressor.table.entries
    modifies reader, reader.descriptor
    ensures conn.Valid() && reader.Valid()
    ensures conn.decompressor.table.entries == old(conn.decompressor.table.entries)
            || fresh(conn.decompressor.table.entries)
    ensures match Serve(old(conn.Abstract()), old(reader.Abstract()).unread)
            case ReadError(c) => ready == None && !left && conn.Abstract() == c
            case PeerLeft(c, _) => ready == None && left && conn.Abstract() == c
            case Ready(id, c, rest) =>
              && ready == Some(id) && conn.Abstract() == c && id in conn.streams
              && reader.Abstract() == BR.Open(rest, old(reader.Abstract()).ending)
  {
    hide ParseFrame, Process;
    ghost var u, ending := reader.Abstract().unread, reader.Abstract().ending;
    ReadyIsStored(conn.Abstract(), u);
    while true
      invariant conn.Valid() && reader.Valid() && reader.Abstract() == BR.Open(u, ending)
      invariant conn.decompressor.table.entries == old(conn.decompressor.table.entries)
                || fresh(conn.decompressor.table.entries)
      invariant Serve(conn.Abstract(), u) == Serve(old(conn.Abstract()), old(reader.Abstract()).unread)
      decreases |u|
    {
      var frame := ReadFrame(reader, conn.limits.maxFrameSize, conn.limits.enablePush);
      assert frame == NextFrame(conn.Abstract(), u);
      if frame.Bad? {
        return None, false;
      }
      reader.InvalidateOldData();
      var verdict := conn.ProcessFrame(frame.item);
      u := u[frame.used..];
      if verdict.Finished? {
        return Some(verdict.id), false;
      }
      if verdict.CloseConnection? {
        return None, true;
      }
    }
  }

  /** The next request of the connection. */
  method ParseRequest(conn: Connection, reader: BR.Reader, cfg: Config, rules: Rules) returns (r: RequestResult)
    requires conn.Valid() && reader.Valid() && cfg.tree.Node?
    modifies conn, conn.decompressor, conn.decompressor.table, conn.decompressor.table.entries
    modifies reader, reader.descriptor
    ensures conn.Valid() && reader.Valid()
    ensures !old(reader.Abstract()).Open? ==> r == RequestError
    ensures old(reader.Abstract()).Open? ==>
              match Serve(old(conn.Abstract()), old(reader.Abstract()).unread)
              case ReadError(c) => r == RequestError && conn.Abstract() == c
              case PeerLeft(c, _) => r == ConnectionClosed && conn.Abstract() == c
              case Ready(id, c, rest) =>
                && reader.Abstract() == BR.Open(rest, old(reader.Abstract()).ending)
                && id in c.streams
                && IsRequestOf(cfg, rules, r, id, c, conn.Abstract())
  {
    hide Serve, IsRequestOf;
    if reader.state != BR.StateOpen {
      return RequestError;
    }
    var ready, left := ServeFrames(conn, reader);
    if ready.None? {
      return if left then ConnectionClosed else RequestError;
    }
    r := RequestFromStream(conn, cfg, rules, ready.value);
  }

  // ----- a message on the wire

  /** Frames of one stream that the receiver can read. */
  ghost predicate Readable(frames: seq<Frame>, id: nat, maxFrameSize: nat) {
    && OwnFrames(frames) && AllSendable(frames) && 0 < id < ID_LIMIT
    && forall i | 0 <= i < |frames| ::
         && StreamId(frames[i]) == Some(id) && InRange(frames[i]) && |FrameWriter.Payload(frames[i])| <= maxFrameSize
         && WellFormed(frames[i])
  }

  /** The receiver works the frames of a message off its bytes and stops behind
      the last one, with the stream as the frames alone make it and every other
      stream, the limits and the table untouched. */
  lemma {:induction false} WireIsServed(c: Context, frames: seq<Frame>, id: nat, rest: Str)
    requires 0 !in c.streams && Readable(frames, id, c.limits.maxFrameSize)
    requires Wire(frames).Some? && FineUntil(Verdicts(Streams.Find(c.streams, id), frames), Finished(id))
    ensures var r := Serve(c, Wire(frames).value + rest);
            && r.Ready? && r.id == id && r.rest == rest
            && r.context.limits == c.limits && r.context.table == c.table
            && r.context.streams.Keys == c.streams.Keys + {id}
            && Some(r.context.streams[id]) == Alone(Streams.Find(c.streams, id), frames)
            && forall other | other in c.streams && other != id :: r.context.streams[other] == c.streams[other]
    decreases |frames|
  {
    hide ParseFrame, OnStream, Write, FrameWriter.Payload, ApplySettings, ResizeTable;
    var f := frames[0];
    var s := Streams.Find(c.streams, id);
    var bytes := Write(f).value;
    var tail := Wire(frames[1..]).value;
    assert Wire(frames).value + rest == bytes + (tail + rest);
    WriteRoundTrip(f, c.limits.maxFrameSize, c.limits.enablePush, tail + rest);
    var u := bytes + (tail + rest);
    assert u[|bytes|..] == tail + rest;
    assert NextFrame(c, u) == Good(f, |bytes|);
    var p := Process(c, f);
    var e := OnStream(s, f);
    ReportSpends(s, f);
    assert Verdicts(s, frames)[0] == e.verdict;
    if |frames| == 1 {
      assert frames[1..] == [];
      assert tail + rest == rest;
    } else {
      assert e.verdict == Fine;
      FineTail(e.verdict, Verdicts(e.stream, frames[1..]), Finished(id));
      StoredStream(c, f, id);
      WireIsServed(p.context, frames[1..], id, rest);
    }
  }

  /** No frame of the run completes a request or closes the connection; frames
      that a stream refuses may be among them. */
  ghost predicate Quiet(c: Context, frames: seq<Frame>)
    requires 0 !in c.streams && AllWellFormed(frames)
    decreases |frames|
  {
    frames != [] ==>
      (StreamZeroStaysOut(c, frames[0]);
       var p := Process(c, frames[0]);
       (p.verdict == Fine || p.verdict == StreamError) && Quiet(p.context, frames[1..]))
  }

  /** Frames of any streams that the receiver can read. */
  ghost predicate AllReadable(frames: seq<Frame>, maxFrameSize: nat) {
    && AllSendable(frames) && AllWellFormed(frames)
    && forall i | 0 <= i < |frames| :: InRange(frames[i]) && |FrameWriter.Payload(frames[i])| <= maxFrameSize
  }

  /** The receiver works a quiet run off its bytes and goes on behind it, a
      refused frame being no reason to stop. */
  lemma {:induction false} QuietRunIsServed(c: Context, frames: seq<Frame>, rest: Str)
    requires 0 !in c.streams && AllReadable(frames, c.limits.maxFrameSize) && Quiet(c, frames)
    requires Wire(frames).Some?
    ensures Serve(c, Wire(frames).value + rest) == Serve(After(c, frames), rest)
    decreases |frames|
  {
    hide ParseFrame, OnStream, Write, FrameWriter.Payload, ApplySettings, ResizeTable;
    if frames == [] {
      assert Wire(frames).value + rest == rest;
    } else {
      var f := frames[0];
      var bytes, tail := Write(f).value, Wire(frames[1..]).value;
      assert Wire(frames).value + rest == bytes + (tail + rest);
      WriteRoundTrip(f, c.limits.maxFrameSize, c.limits.enablePush, tail + rest);
      var u := bytes + (tail + rest);
      assert u[|bytes|..] == tail + rest;
      assert NextFrame(c, u) == Good(f, |bytes|);
      QuietRunIsServed(Process(c, f).context, frames[1..], rest);
    }
  }

  /** A request behind a quiet run: it is reported where its last frame ends. */
  lemma RequestIsServed(c: Context, frames: seq<Frame>, f: Frame, id: nat, rest: Str)
    requires 0 !in c.streams && AllReadable(frames, c.limits.maxFrameSize) && Quiet(c, frames) && Wire(frames).Some?
    requires Sendable(f) && InRange(f) && WellFormed(f) && Write(f).Some?
    requires |FrameWriter.Payload(f)| <= c.limits.maxFrameSize
    requires Process(After(c, frames), f).verdict == Finished(id)
    ensures Serve(c, Wire(frames).value + Write(f).value + rest)
         == Ready(id, Process(After(c, frames), f).context, rest)
  {
    hide ParseFrame, OnStream, Write, FrameWriter.Payload, ApplySettings, ResizeTable, Wire, Quiet;
    assert Wire(frames).value + Write(f).value + rest == Wire(frames).value + (Write(f).value + rest);
    QuietRunIsServed(c, frames, Write(f).value + rest);
    QuietLimits(c, frames);
    OneFrame(After(c, frames), f, rest);
  }

  lemma {:induction false} QuietLimits(c: Context, frames: seq<Frame>)
    requires 0 !in c.streams && AllReadable(frames, c.limits.maxFrameSize)
    ensures After(c, frames).limits == c.limits
    decreases |frames|
  {
    hide OnStream, FrameWriter.Payload, InRange;
    if frames != [] {
      var f := frames[0];
      StreamZeroStaysOut(c, f);
      QuietLimits(Process(c, f).context, frames[1..]);
    }
  }

  lemma OneFrame(c: Context, f: Frame, rest: Str)
    requires 0 !in c.streams && Sendable(f) && InRange(f) && WellFormed(f) && Write(f).Some?
    requires |FrameWriter.Payload(f)| <= c.limits.maxFrameSize
    ensures var p := Process(c, f);
            && (p.verdict.Finished? ==> Serve(c, Write(f).value + rest) == Ready(p.verdict.id, p.context, rest))
            && (p.verdict.CloseConnection? ==> Serve(c, Write(f).value + rest) == PeerLeft(p.context, rest))
  {
    hide ParseFrame, Process, Write, FrameWriter.Payload;
    WriteRoundTrip(f, c.limits.maxFrameSize, c.limits.enablePush, rest);
    var u := Write(f).value + rest;
    assert u[|Write(f).value|..] == rest;
    assert NextFrame(c, u) == Good(f, |Write(f).value|);
  }

  /** GOAWAY ends the serving with its error code kept; bytes that are no frame
      end it with an error and change nothing. */
  lemma ServingEnds(c: Context, last: nat, code: nat, debugData: Str, rest: Str)
    requires 0 !in c.streams && last < ID_LIMIT && code < 2 * ID_LIMIT
    requires 8 + |debugData| < LENGTH_LIMIT && 8 + |debugData| <= c.limits.maxFrameSize
    ensures var bytes := Write(Goaway(last, code, debugData));
            bytes.Some? && Serve(c, bytes.value + rest) == PeerLeft(c.(closedReason := Some(code)), rest)
    ensures ParseFrame(c.limits.maxFrameSize, c.limits.enablePush, rest).Bad? ==> Serve(c, rest) == ReadError(c)
  {
    hide ParseFrame, Write;
    var f := Goaway(last, code, debugData);
    assert |FrameWriter.Payload(f)| == 8 + |debugData|;
    WriteRoundTrip(f, c.limits.maxFrameSize, c.limits.enablePush, rest);
    OneFrame(c, f, rest);
  }

  lemma StoredStream(c: Context, f: Frame, id: nat)
    requires 0 !in c.streams && StreamId(f) == Some(id) && !f.PushPromise?
    ensures Streams.Find(Process(c, f).context.streams, id) == OnStream(Streams.Find(c.streams, id), f).stream
  {
    StillThere(Streams.Find(c.streams, id), f);
  }

  lemma MessageIsReadable(id: nat, limits: Limits, block: Str, headersAreEndStream: bool, body: Str, maxFrameSize: nat)
    requires SaneLimits(limits) && 0 < id < ID_LIMIT && limits.maxFrameSize <= maxFrameSize
    ensures Readable(MessageFrames(id, limits, block, headersAreEndStream, body), id, maxFrameSize)
  {
    var frames := MessageFrames(id, limits, block, headersAreEndStream, body);
    MessageFramesAreOwn(id, limits, block, headersAreEndStream, body);
    HeaderFramesAreInRange(id, MaxHeaderPayload(limits), block, 0, headersAreEndStream);
    DataFramesAreInRange(id, limits.maxFrameSize, body, 0);
  }

  ghost predicate AllInRange(frames: seq<Frame>) {
    forall i | 0 <= i < |frames| :: Sendable(frames[i]) && InRange(frames[i])
  }

  lemma OneMoreInRange(f: Frame, frames: seq<Frame>)
    requires Sendable(f) && InRange(f) && AllInRange(frames)
    ensures AllInRange([f] + frames)
  {
    hide InRange;
    forall i | 0 <= i < |frames| + 1 ensures Sendable(([f] + frames)[i]) && InRange(([f] + frames)[i]) {
      assert i > 0 ==> ([f] + frames)[i] == frames[i - 1];
    }
  }

  lemma {:induction false} HeaderFramesAreInRange(id: nat, max: nat, block: Str, offset: nat, endStream: bool)
    requires offset <= |block| && max > 0 && 0 < id < ID_LIMIT
    ensures AllInRange(HeaderFrames(id, max, block, offset, endStream))
    decreases |block| - offset
  {
    if offset < |block| {
      var next := offset + FragmentSize(|block|, offset, max);
      HeaderFramesAreInRange(id, max, block, next, endStream);
      OneMoreInRange(HeaderFrame(id, max, block, offset, endStream), HeaderFrames(id, max, block, next, endStream));
    }
  }

  lemma {:induction false} DataFramesAreInRange(id: nat, max: nat, body: Str, offset: nat)
    requires offset <= |body| && max > 0 && 0 < id < ID_LIMIT
    ensures AllInRange(DataFrames(id, max, body, offset))
    decreases |body| - offset
  {
    if offset < |body| {
      var next := offset + FragmentSize(|body|, offset, max);
      DataFramesAreInRange(id, max, body, next);
      OneMoreInRange(DataFrame(id, max, body, offset), DataFrames(id, max, body, next));
    }
  }

  lemma {:induction false} WireBoth(first: seq<Frame>, second: seq<Frame>)
    requires AllSendable(first) && AllSendable(second) && Wire(first).Some? && Wire(second).Some?
    ensures AllSendable(first + second) && Wire(first + second) == Some(Wire(first).value + Wire(second).value)
    decreases |first|
  {
    hide Write;
    if first == [] {
      assert first + second == second;
      assert [] + Wire(second).value == Wire(second).value;
    } else {
      assert (first + second)[1..] == first[1..] + second;
      WireBoth(first[1..], second);
      var head, middle, last := Write(first[0]).value, Wire(first[1..]).value, Wire(second).value;
      assert head + (middle + last) == head + middle + last;
    }
  }

  /** The bytes of a message. */
  lemma MessageWire(id: nat, limits: Limits, block: Str, headersAreEndStream: bool, body: Str)
    requires SaneLimits(limits) && id != 0
    requires !(limits.maxFrameSize == LENGTH_LIMIT && |body| >= LENGTH_LIMIT)
    ensures var first := HeaderFrames(id, MaxHeaderPayload(limits), block, 0, headersAreEndStream);
            var second := DataFrames(id, limits.maxFrameSize, body, 0);
            && AllSendable(first) && AllSendable(second) && Wire(first).Some? && Wire(second).Some?
            && AllSendable(MessageFrames(id, limits, block, headersAreEndStream, body))
            && Wire(MessageFrames(id, limits, block, headersAreEndStream, body))
               == Some(Wire(first).value + Wire(second).value)
  {
    HeadersCanBeSent(id, limits, block, headersAreEndStream);
    BodyCanBeSentIff(id, limits, body);
    WireBoth(HeaderFrames(id, MaxHeaderPayload(limits), block, 0, headersAreEndStream),
             DataFrames(id, limits.maxFrameSize, body, 0));
  }

  /** A request sent on an unused stream is served from its bytes, and
      decompressing its header block gives the header list that was compressed
      and the table of the compressor. */
  lemma RequestArrives(cfg: Config, opts: Options, limits: Limits, c: Context, id: nat,
                       fields: seq<Field>, body: Str, rest: Str)
    requires ValidConfig(cfg) && 0 !in c.streams && id !in c.streams && 0 < id < ID_LIMIT
    requires SaneLimits(limits) && limits.maxFrameSize <= c.limits.maxFrameSize
    requires !(limits.maxFrameSize == LENGTH_LIMIT && |body| >= LENGTH_LIMIT)
    requires fields != [] && BlockSurvives(cfg, opts, c.table, fields)
    ensures var sent := EncodeBlock(cfg, opts, c.table, fields);
            && sent.bytes.Some?
            && var frames := MessageFrames(id, limits, sent.bytes.value, body == [], body);
            && AllSendable(frames) && Wire(frames).Some?
            && var r := Serve(c, Wire(frames).value + rest);
            && r.Ready? && r.id == id && r.rest == rest && id in r.context.streams
            && r.context.streams.Keys == c.streams.Keys + {id}
            && (forall other | other in c.streams :: r.context.streams[other] == c.streams[other])
            && DecodeBlock(cfg, r.context.table, Concat(r.context.streams[id].headerBlocks))
               == Outcome(Ok(fields), sent.view)
            && Concat(r.context.streams[id].dataBlocks) == body
  {
    hide EncodeBlock, DecodeBlock, BlockSurvives, Serve, MessageFrames, Verdicts, Alone, Wire, Readable;
    BlockRoundTrip(cfg, opts, c.table, fields);
    var block := EncodeBlock(cfg, opts, c.table, fields).bytes.value;
    EmptyBlockOnly(cfg, opts, c.table, fields);
    var frames := MessageFrames(id, limits, block, body == [], body);
    MessageIsReadable(id, limits, block, body == [], body, c.limits.maxFrameSize);
    MessageIsDeliveredIff(id, limits, block, body == [], body);
    MessageWire(id, limits, block, body == [], body);
    WireIsServed(c, frames, id, rest);
  }

  /** The whole way: compress the header list, send it and the body in frames,
      let the bytes arrive in any pieces, and take the request off the
      connection at the other end. The request has the shape of the list that
      was sent and its body, and both ends have the same table again. */
  method DeliverRequest(cfg: Config, rules: Rules, opts: Options, limits: Limits, compressor: TableState,
                        conn: Connection, id: nat, fields: seq<Field>, body: Str, behind: Str)
    returns (r: RequestResult)
    requires ValidConfig(cfg) && compressor.Valid() && conn.Valid()
    requires compressor != conn.decompressor && compressor.table != conn.decompressor.table
             && compressor.table.entries != conn.decompressor.table.entries
    requires compressor.Abstract() == conn.decompressor.Abstract()
    requires 0 < id < ID_LIMIT && id !in conn.streams
    requires SaneLimits(limits) && limits.maxFrameSize <= conn.limits.maxFrameSize
    requires !(limits.maxFrameSize == LENGTH_LIMIT && |body| >= LENGTH_LIMIT)
    requires fields != [] && BlockSurvives(cfg, opts, compressor.Abstract(), fields) && IsRequestHead(rules, fields)
    requires forall i | 0 <= i < |fields| :: Hpack.InMemory(cfg, fields[i])
    requires |cfg.statics| + compressor.maxBytes / 32 < PrefixInteger.UINT64_LIMIT / 2
    modifies compressor, compressor.table, compressor.table.entries
    modifies conn, conn.decompressor, conn.decompressor.table, conn.decompressor.table.entries
    ensures compressor.Valid() && conn.Valid()
    ensures r.GotRequest? && r.id == id && r.body == body && IsHeadOf(r.head, fields)
    ensures conn.decompressor.Abstract() == compressor.Abstract()
    ensures conn.streams.Keys == old(conn.streams).Keys + {id}
    ensures forall other | other in old(conn.streams) :: conn.streams[other] == old(conn.streams)[other]
  {
    hide BlockSurvives, EncodeBlock, DecodeBlock, IsRequestHead, IsHeadOf, Serve, Wire, HeaderFrames, DataFrames,
         Hpack.InMemory, SaneLimits;
    ghost var c := conn.Abstract();
    RequestArrives(cfg, opts, limits, c, id, fields, body, behind);
    assert limits.maxFrameSize > ADDITIONAL_HEADERS_DATA_SIZE by { LimitsLeaveRoom(limits); }
    var block := Hpack.Compress(cfg, compressor, opts, fields);
    MessageWire(id, limits, block, body == [], body);
    var ok1, head := SendHeaders(id, limits, block, body == []);
    var ok2, tail := SendData(id, limits, body);
    var descriptor := new BR.Descriptor(head + tail + behind, BR.Eof);
    var reader := new BR.Reader(descriptor);
    r := ParseRequest(conn, reader, cfg, rules);
  }

  /** The assertion of the header-size helper. */
  lemma LimitsLeaveRoom(limits: Limits)
    requires SaneLimits(limits)
    ensures limits.maxFrameSize > ADDITIONAL_HEADERS_DATA_SIZE
  {
  }
}
