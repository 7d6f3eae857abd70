/** Sending a message in fragments and collecting it again
    (src/http/v2.c:2747-2789, 3487-3592; sections 6.1, 6.2 and 6.10 of RFC 7540). */
module Fragmentation {
  import opened Wrappers
  import opened Buffers
  import opened Frames
  import opened FrameWriter
  import opened Streams
  import opened StreamRuns

  // ----- collecting

  function Concat(blocks: seq<Str>): Str {
    if blocks == [] then [] else Concat(blocks[..|blocks| - 1]) + blocks[|blocks| - 1]
  }

  lemma ConcatSnoc(blocks: seq<Str>, b: Str)
    ensures Concat(blocks + [b]) == Concat(blocks) + b
  {
    assert (blocks + [b])[..|blocks|] == blocks;
  }

  lemma {:induction false} ConcatPrefix(blocks: seq<Str>, i: nat)
    requires i <= |blocks|
    ensures |Concat(blocks[..i])| <= |Concat(blocks)|
    decreases |blocks|
  {
    if i == |blocks| {
      assert blocks[..i] == blocks;
    } else {
      var shorter := blocks[..|blocks| - 1];
      assert shorter[..i] == blocks[..i];
      ConcatPrefix(shorter, i);
    }
  }

  /** Add up the sizes, then copy the blocks one behind the other. */
  method ConcatDataBlocks(blocks: seq<Str>) returns (r: Str)
    ensures r == Concat(blocks)
  {
    var size := 0;
    for i := 0 to |blocks|
      invariant size == |Concat(blocks[..i])|
    {
      assert blocks[..i + 1][..i] == blocks[..i];
      size := size + |blocks[i]|;
    }
    assert blocks[..|blocks|] == blocks;
    if size == 0 {
      return [];
    }
    var result := new byte[size];
    var offset := 0;
    for i := 0 to |blocks|
      invariant offset == |Concat(blocks[..i])| <= size
      invariant result[..offset] == Concat(blocks[..i])
    {
      assert blocks[..i + 1][..i] == blocks[..i];
      ConcatPrefix(blocks, i + 1);
      ghost var before := result[..];
      CopyInto(result, offset, blocks[i]);
      FilledFurther(result, before, offset, blocks[i]);
      offset := offset + |blocks[i]|;
    }
    r := result[..];
  }

  // ----- fragmenting

  const ADDITIONAL_HEADERS_DATA_SIZE: nat := 6

  function MaxHeaderPayload(limits: Limits): nat
    requires limits.maxFrameSize > ADDITIONAL_HEADERS_DATA_SIZE
  {
    limits.maxFrameSize - ADDITIONAL_HEADERS_DATA_SIZE
  }

  /** The size of the fragment at `offset`. */
  function FragmentSize(total: nat, offset: nat, max: nat): (size: nat)
    requires offset < total && max > 0
    ensures 0 < size <= max && offset + size <= total
  {
    if offset + max >= total then total - offset else max
  }

  function HeaderFrame(id: nat, max: nat, block: Str, offset: nat, endStream: bool): Frame
    requires offset < |block| && max > 0
  {
    var end := offset + FragmentSize(|block|, offset, max);
    if offset == 0 then Headers(id, None, block[offset..end], endStream, end >= |block|)
    else Continuation(id, block[offset..end], end >= |block|)
  }

  /** HEADERS, then CONTINUATION, from `offset` on. */
  function HeaderFrames(id: nat, max: nat, block: Str, offset: nat, endStream: bool): seq<Frame>
    requires offset <= |block| && max > 0
    decreases |block| - offset
  {
    if offset == |block| then []
    else
      [HeaderFrame(id, max, block, offset, endStream)]
      + HeaderFrames(id, max, block, offset + FragmentSize(|block|, offset, max), endStream)
  }

  function DataFrame(id: nat, max: nat, body: Str, offset: nat): Frame
    requires offset < |body| && max > 0
  {
    var end := offset + FragmentSize(|body|, offset, max);
    Data(id, body[offset..end], end >= |body|)
  }

  function DataFrames(id: nat, max: nat, body: Str, offset: nat): seq<Frame>
    requires offset <= |body| && max > 0
    decreases |body| - offset
  {
    if offset == |body| then []
    else [DataFrame(id, max, body, offset)] + DataFrames(id, max, body, offset + FragmentSize(|body|, offset, max))
  }

  /** The frames of a message: its header block and its body. */
  function MessageFrames(id: nat, limits: Limits, block: Str, headersAreEndStream: bool, body: Str): seq<Frame>
    requires limits.maxFrameSize > ADDITIONAL_HEADERS_DATA_SIZE
  {
    HeaderFrames(id, MaxHeaderPayload(limits), block, 0, headersAreEndStream)
    + DataFrames(id, limits.maxFrameSize, body, 0)
  }

  ghost predicate AllSendable(frames: seq<Frame>) {
    forall i | 0 <= i < |frames| :: Sendable(frames[i])
  }

  /** The bytes of a run of frames, if each of them can be written. */
  ghost function Wire(frames: seq<Frame>): Option<Str>
    requires AllSendable(frames)
  {
    if frames == [] then Some([])
    else
      var first := Write(frames[0]);
      var rest := Wire(frames[1..]);
      if first.None? || rest.None? then None else Some(first.value + rest.value)
  }

  /** How many fragments of `max` bytes a block of `total` bytes takes. */
  function FragmentCount(total: nat, max: nat): nat
    requires max > 0
  {
    if total == 0 then 0 else if total <= max then 1 else 1 + FragmentCount(total - max, max)
  }

  /** The piece of at most `max` bytes from `at` on. */
  function Piece(block: Str, at: nat, max: nat): Str
    requires at <= |block|
  {
    if at + max <= |block| then block[at..at + max] else block[at..]
  }

  lemma {:induction false} CountFrames(id: nat, max: nat, block: Str, offset: nat, endStream: bool)
    requires max > 0 && offset <= |block|
    ensures |HeaderFrames(id, max, block, offset, endStream)| == FragmentCount(|block| - offset, max)
    ensures |DataFrames(id, max, block, offset)| == FragmentCount(|block| - offset, max)
    decreases |block| - offset
  {
    if offset < |block| {
      CountFrames(id, max, block, offset + FragmentSize(|block|, offset, max), endStream);
    }
  }

  /** Frame `k` from `offset` on carries the piece that starts `k * max` bytes behind. */
  lemma {:induction false} PieceAt(id: nat, max: nat, block: Str, offset: nat, endStream: bool, k: nat)
    requires max > 0 && offset <= |block| && k < FragmentCount(|block| - offset, max)
    ensures |HeaderFrames(id, max, block, offset, endStream)| == FragmentCount(|block| - offset, max)
    ensures |DataFrames(id, max, block, offset)| == FragmentCount(|block| - offset, max)
    ensures var at := offset + k * max;
            var last := k == FragmentCount(|block| - offset, max) - 1;
            && at <= |block|
            && HeaderFrames(id, max, block, offset, endStream)[k]
               == (if at == 0 then Headers(id, None, Piece(block, at, max), endStream, last)
                   else Continuation(id, Piece(block, at, max), last))
            && DataFrames(id, max, block, offset)[k] == Data(id, Piece(block, at, max), last)
    decreases k
  {
    hide Piece, HeaderFrame, DataFrame;
    CountFrames(id, max, block, offset, endStream);
    FirstPiece(id, max, block, offset, endStream);
    if k > 0 {
      Times(k, max);
      PieceAt(id, max, block, offset + max, endStream, k - 1);
    }
  }

  lemma FirstPiece(id: nat, max: nat, block: Str, offset: nat, endStream: bool)
    requires max > 0 && offset < |block|
    ensures var last := |block| - offset <= max;
            && HeaderFrame(id, max, block, offset, endStream)
               == (if offset == 0 then Headers(id, None, Piece(block, offset, max), endStream, last)
                   else Continuation(id, Piece(block, offset, max), last))
            && DataFrame(id, max, block, offset) == Data(id, Piece(block, offset, max), last)
  {
    assert Piece(block, offset, max) == block[offset..offset + FragmentSize(|block|, offset, max)];
  }

  lemma Times(k: nat, max: nat)
    requires k > 0
    ensures k * max == (k - 1) * max + max
  {
  }

  lemma Multiple(k: nat, max: nat)
    requires max > 0
    ensures k * max == 0 <==> k == 0
  {
    if k > 0 {
      assert k * max == (k - 1) * max + max;
    }
  }

  /** What the senders make of a block and a body: pieces of six bytes less than
      the frame size for the block, of the frame size for the body, each but the
      last one full, the first fragment in HEADERS and the others in
      CONTINUATION, END_HEADERS and the end of the body on the last piece. */
  lemma FramesArePieces(id: nat, limits: Limits, block: Str, endStream: bool, body: Str)
    requires limits.maxFrameSize > 6
    ensures var m, n := limits.maxFrameSize - 6, limits.maxFrameSize;
            var first, second := FragmentCount(|block|, m), FragmentCount(|body|, n);
            var frames := MessageFrames(id, limits, block, endStream, body);
            && |frames| == first + second
            && (forall k | 0 <= k < first ::
                  && k * m <= |block|
                  && frames[k] == if k == 0 then Headers(id, None, Piece(block, 0, m), endStream, first == 1)
                                  else Continuation(id, Piece(block, k * m, m), k == first - 1))
            && (forall k | 0 <= k < second ::
                  k * n <= |body| && frames[first + k] == Data(id, Piece(body, k * n, n), k == second - 1))
  {
    hide HeaderFrames, DataFrames, Piece, FragmentCount;
    var m, n := limits.maxFrameSize - 6, limits.maxFrameSize;
    CountFrames(id, m, block, 0, endStream);
    CountFrames(id, n, body, 0, endStream);
    forall k | 0 <= k < FragmentCount(|block|, m)
      ensures k * m <= |block|
      ensures HeaderFrames(id, m, block, 0, endStream)[k]
           == if k == 0 then Headers(id, None, Piece(block, 0, m), endStream, FragmentCount(|block|, m) == 1)
              else Continuation(id, Piece(block, k * m, m), k == FragmentCount(|block|, m) - 1)
    {
      PieceAt(id, m, block, 0, endStream, k);
      Multiple(k, m);
    }
    forall k | 0 <= k < FragmentCount(|body|, n)
      ensures k * n <= |body|
      ensures DataFrames(id, n, body, 0)[k] == Data(id, Piece(body, k * n, n), k == FragmentCount(|body|, n) - 1)
    {
      PieceAt(id, n, body, 0, endStream, k);
    }
  }

  // ----- what the stream machine makes of the frames

  /** The verdicts of one stream alone. */
  ghost function Verdicts(s: Option<Stream>, frames: seq<Frame>): (vs: seq<Verdict>)
    requires OwnFrames(frames)
    ensures |vs| == |frames|
    decreases |frames|
  {
    if frames == [] then []
    else [OnStream(s, frames[0]).verdict] + Verdicts(OnStream(s, frames[0]).stream, frames[1..])
  }

  /** Every verdict is fine but the last, which is `last`. */
  ghost predicate FineUntil(vs: seq<Verdict>, last: Verdict) {
    vs != [] && vs[|vs| - 1] == last && forall i | 0 <= i < |vs| - 1 :: vs[i] == Fine
  }

  lemma FineCons(vs: seq<Verdict>, last: Verdict)
    requires FineUntil(vs, last)
    ensures FineUntil([Fine] + vs, last)
  {
  }

  lemma FineTail(v: Verdict, vs: seq<Verdict>, last: Verdict)
    requires FineUntil([v] + vs, last) && vs != []
    ensures v == Fine && FineUntil(vs, last)
  {
    assert ([v] + vs)[0] == v;
    assert forall i | 0 <= i < |vs| :: vs[i] == ([v] + vs)[i + 1];
  }

  lemma {:induction false} HeaderFramesAreOwn(id: nat, max: nat, block: Str, offset: nat, endStream: bool)
    requires offset <= |block| && max > 0 && id != 0
    ensures var frames := HeaderFrames(id, max, block, offset, endStream);
            && (forall i | 0 <= i < |frames| :: StreamId(frames[i]) == Some(id) && Sendable(frames[i])
                  && |Payload(frames[i])| <= max && WellFormed(frames[i])
                  && !frames[i].PushPromise? && !frames[i].RstStream?)
            && (frames == [] <==> offset == |block|)
    decreases |block| - offset
  {
    if offset < |block| {
      HeaderFramesAreOwn(id, max, block, offset + FragmentSize(|block|, offset, max), endStream);
    }
  }

  lemma {:induction false} DataFramesAreOwn(id: nat, max: nat, body: Str, offset: nat)
    requires offset <= |body| && max > 0 && id != 0
    ensures var frames := DataFrames(id, max, body, offset);
            && (forall i | 0 <= i < |frames| :: StreamId(frames[i]) == Some(id) && Sendable(frames[i])
                  && |Payload(frames[i])| <= max && WellFormed(frames[i]) && frames[i].Data?)
            && (frames == [] <==> offset == |body|)
    decreases |body| - offset
  {
    if offset < |body| {
      DataFramesAreOwn(id, max, body, offset + FragmentSize(|body|, offset, max));
    }
  }

  /** A stream collecting the header block: everything before `offset` is there. */
  ghost predicate Collecting(s: Stream, block: Str, offset: nat, endStream: bool) {
    && s.state == Open && !s.headersFinished && s.endStream == endStream
    && s.dataBlocks == [] && offset <= |block| && Concat(s.headerBlocks) == block[..offset]
  }

  /** A stream whose header block is complete. */
  ghost predicate Collected(s: Option<Stream>, block: Str, endStream: bool) {
    && s.Some? && s.value.state == (if endStream then HalfClosed else Open)
    && s.value.headersFinished && s.value.endStream == endStream
    && s.value.dataBlocks == [] && Concat(s.value.headerBlocks) == block
  }

  lemma HeaderStep(s: Stream, id: nat, max: nat, block: Str, offset: nat, endStream: bool)
    requires 0 < offset < |block| && max > 0 && id != 0 && Collecting(s, block, offset, endStream)
    ensures var f := HeaderFrame(id, max, block, offset, endStream);
            var end := offset + FragmentSize(|block|, offset, max);
            var e := OnStream(Some(s), f);
            if end == |block| then
              Collected(e.stream, block, endStream) && e.verdict == (if endStream then Finished(id) else Fine)
            else e.stream.Some? && Collecting(e.stream.value, block, end, endStream) && e.verdict == Fine
  {
    var end := offset + FragmentSize(|block|, offset, max);
    ConcatSnoc(s.headerBlocks, block[offset..end]);
    assert block[..offset] + block[offset..end] == block[..end];
    assert block[..|block|] == block;
  }

  lemma FirstHeaderStep(id: nat, max: nat, block: Str, endStream: bool)
    requires 0 < |block| && max > 0 && id != 0
    ensures var f := HeaderFrame(id, max, block, 0, endStream);
            var end := FragmentSize(|block|, 0, max);
            var e := OnStream(None, f);
            if end == |block| then
              Collected(e.stream, block, endStream) && e.verdict == (if endStream then Finished(id) else Fine)
            else e.stream.Some? && Collecting(e.stream.value, block, end, endStream) && e.verdict == Fine
  {
    var end := FragmentSize(|block|, 0, max);
    ConcatSnoc([], block[0..end]);
    assert [] + [block[0..end]] == [block[0..end]];
    assert block[0..end] == block[..end];
    assert block[..|block|] == block;
  }

  lemma {:induction false} CollectHeaders(s: Option<Stream>, id: nat, max: nat, block: Str, offset: nat,
                                          endStream: bool)
    requires offset < |block| && max > 0 && id != 0
    requires if offset == 0 then s == None else s.Some? && Collecting(s.value, block, offset, endStream)
    ensures var frames := HeaderFrames(id, max, block, offset, endStream);
            && OwnFrames(frames)
            && Collected(Alone(s, frames), block, endStream)
            && FineUntil(Verdicts(s, frames), if endStream then Finished(id) else Fine)
    decreases |block| - offset
  {
    hide OnStream, HeaderFrame, Collecting, Collected;
    HeaderFramesAreOwn(id, max, block, offset, endStream);
    var frames := HeaderFrames(id, max, block, offset, endStream);
    var end := offset + FragmentSize(|block|, offset, max);
    if offset == 0 {
      FirstHeaderStep(id, max, block, endStream);
    } else {
      HeaderStep(s.value, id, max, block, offset, endStream);
    }
    var e := OnStream(s, frames[0]);
    assert frames[1..] == HeaderFrames(id, max, block, end, endStream);
    if end == |block| {
      assert frames[1..] == [];
    } else {
      CollectHeaders(e.stream, id, max, block, end, endStream);
      FineCons(Verdicts(e.stream, frames[1..]), if endStream then Finished(id) else Fine);
    }
  }

  /** A stream collecting the body behind a complete header block. */
  ghost predicate Filling(s: Option<Stream>, block: Str, body: Str, offset: nat) {
    && s.Some? && s.value.state == Open && s.value.headersFinished && !s.value.endStream
    && Concat(s.value.headerBlocks) == block
    && offset <= |body| && Concat(s.value.dataBlocks) == body[..offset]
  }

  /** The whole message is there. */
  ghost predicate Whole(s: Option<Stream>, block: Str, body: Str) {
    && s.Some? && s.value.state == HalfClosed && s.value.headersFinished && s.value.endStream
    && Concat(s.value.headerBlocks) == block && Concat(s.value.dataBlocks) == body
  }

  lemma DataStep(s: Option<Stream>, id: nat, max: nat, block: Str, body: Str, offset: nat)
    requires offset < |body| && max > 0 && id != 0 && Filling(s, block, body, offset)
    ensures var end := offset + FragmentSize(|body|, offset, max);
            var e := OnStream(s, DataFrame(id, max, body, offset));
            if end == |body| then Whole(e.stream, block, body) && e.verdict == Finished(id)
            else Filling(e.stream, block, body, end) && e.verdict == Fine
  {
    var end := offset + FragmentSize(|body|, offset, max);
    ConcatSnoc(s.value.dataBlocks, body[offset..end]);
    assert body[..offset] + body[offset..end] == body[..end];
    assert body[..|body|] == body;
  }

  lemma {:induction false} CollectBody(s: Option<Stream>, id: nat, max: nat, block: Str, body: Str, offset: nat)
    requires offset < |body| && max > 0 && id != 0 && Filling(s, block, body, offset)
    ensures var frames := DataFrames(id, max, body, offset);
            && OwnFrames(frames)
            && Whole(Alone(s, frames), block, body)
            && FineUntil(Verdicts(s, frames), Finished(id))
    decreases |body| - offset
  {
    hide OnStream, DataFrame, Filling, Whole;
    DataFramesAreOwn(id, max, body, offset);
    var frames := DataFrames(id, max, body, offset);
    var end := offset + FragmentSize(|body|, offset, max);
    DataStep(s, id, max, block, body, offset);
    var e := OnStream(s, frames[0]);
    assert frames[1..] == DataFrames(id, max, body, end);
    if end == |body| {
      assert frames[1..] == [];
    } else {
      CollectBody(e.stream, id, max, block, body, end);
      FineCons(Verdicts(e.stream, frames[1..]), Finished(id));
    }
  }

  lemma {:induction false} RunBoth(s: Option<Stream>, first: seq<Frame>, second: seq<Frame>)
    requires OwnFrames(first) && OwnFrames(second)
    ensures OwnFrames(first + second)
    ensures Alone(s, first + second) == Alone(Alone(s, first), second)
    ensures Verdicts(s, first + second) == Verdicts(s, first) + Verdicts(Alone(s, first), second)
    decreases |first|
  {
    hide OnStream;
    if first == [] {
      assert first + second == second;
    } else {
      assert (first + second)[1..] == first[1..] + second;
      RunBoth(OnStream(s, first[0]).stream, first[1..], second);
    }
  }

  lemma {:induction false} SpentVerdicts(s: Option<Stream>, frames: seq<Frame>)
    requires OwnFrames(frames) && (s.Some? ==> Spent(s.value))
    requires s.None? ==> forall i | 0 <= i < |frames| :: frames[i].Data?
    ensures forall i | 0 <= i < |frames| :: !Verdicts(s, frames)[i].Finished?
    decreases |frames|
  {
    if frames != [] {
      ReportSpends(s, frames[0]);
      SpentVerdicts(OnStream(s, frames[0]).stream, frames[1..]);
    }
  }

  /** The receiver has the message: reported once, on the last frame, and its
      blocks put together are what was sent. */
  ghost predicate DeliveredOn(s: Option<Stream>, id: nat, frames: seq<Frame>, block: Str, body: Str)
    requires OwnFrames(frames)
  {
    FineUntil(Verdicts(s, frames), Finished(id)) && Whole(Alone(s, frames), block, body)
  }

  lemma MessageFramesAreOwn(id: nat, limits: Limits, block: Str, headersAreEndStream: bool, body: Str)
    requires limits.maxFrameSize > ADDITIONAL_HEADERS_DATA_SIZE && id != 0
    ensures var frames := MessageFrames(id, limits, block, headersAreEndStream, body);
            && OwnFrames(frames) && NoReset(frames) && AllSendable(frames)
            && forall i | 0 <= i < |frames| ::
                 && StreamId(frames[i]) == Some(id) && WellFormed(frames[i])
                 && |Payload(frames[i])| <= limits.maxFrameSize
  {
    HeaderFramesAreOwn(id, MaxHeaderPayload(limits), block, 0, headersAreEndStream);
    DataFramesAreOwn(id, limits.maxFrameSize, body, 0);
  }

  /** Fragment, then reassemble: on an unused stream the message arrives whole,
      reported once and on its last frame, exactly when there is a header block
      and END_STREAM is on HEADERS if and only if there is no body. */
  lemma MessageIsDeliveredIff(id: nat, limits: Limits, block: Str, headersAreEndStream: bool, body: Str)
    requires limits.maxFrameSize > ADDITIONAL_HEADERS_DATA_SIZE && id != 0
    ensures var frames := MessageFrames(id, limits, block, headersAreEndStream, body);
            && OwnFrames(frames)
            && (DeliveredOn(None, id, frames, block, body) <==> block != [] && (headersAreEndStream <==> body == []))
  {
    hide Alone, Verdicts, OnStream;
    var max := MaxHeaderPayload(limits);
    var first := HeaderFrames(id, max, block, 0, headersAreEndStream);
    var second := DataFrames(id, limits.maxFrameSize, body, 0);
    var frames := MessageFrames(id, limits, block, headersAreEndStream, body);
    HeaderFramesAreOwn(id, max, block, 0, headersAreEndStream);
    DataFramesAreOwn(id, limits.maxFrameSize, body, 0);
    RunBoth(None, first, second);
    var between := Alone(None, first);
    var v1, v2 := Verdicts(None, first), Verdicts(between, second);
    if block == [] {
      NoHeaders(second, body);
    } else {
      CollectHeaders(None, id, max, block, 0, headersAreEndStream);
      if body == [] {
        assert first + second == first;
        assert Concat([]) == [];
      } else if headersAreEndStream {
        SpentVerdicts(between, second);
        assert (v1 + v2)[|v1 + v2| - 1] == v2[|v2| - 1];
      } else {
        assert Concat([]) == [] == body[..0];
        CollectBody(between, id, limits.maxFrameSize, block, body, 0);
        assert forall i | 0 <= i < |v1| :: v1[i] == Fine;
      }
    }
  }

  /** Without a header block nothing is ever reported. */
  lemma NoHeaders(second: seq<Frame>, body: Str)
    requires OwnFrames(second) && forall i | 0 <= i < |second| :: second[i].Data?
    ensures OwnFrames([] + second)
    ensures Alone(None, []) == None
    ensures forall id :: !FineUntil(Verdicts(None, [] + second), Finished(id))
  {
    assert [] + second == second;
    SpentVerdicts(None, second);
  }

  /** A stream that PRIORITY has put into the map: it stays idle behind HEADERS
      unless that frame completes the request. */
  lemma PrioritizedStep(id: nat, info: Priority, f: Frame)
    requires f.Headers? && f.id == id
    ensures var e := OnStream(Some(NewStream(Idle, false, info)), f);
            if f.endStream && f.endHeaders then e.verdict == Finished(id) && Whole(e.stream, f.fragment, [])
            else e.verdict == Fine && e.stream.Some? && e.stream.value.state == Idle
  {
    assert [] + [f.fragment] == [f.fragment];
    ConcatSnoc([], f.fragment);
    assert [] + f.fragment == f.fragment;
  }

  lemma IdleRefuses(s: Stream, frames: seq<Frame>, last: Verdict)
    requires s.state == Idle && OwnFrames(frames) && frames != []
    requires frames[0].Data? || frames[0].Continuation?
    requires last != StreamError
    ensures Verdicts(Some(s), frames)[0] == StreamError && !FineUntil(Verdicts(Some(s), frames), last)
  {
  }

  /** The stream as PRIORITY alone makes it. */
  ghost function Prioritized(info: Priority): Option<Stream> {
    Some(NewStream(Idle, false, info))
  }

  /** On a stream that received PRIORITY before its message, the message arrives
      whole, reported on its last frame, exactly when it is a single HEADERS
      frame with END_STREAM: a header block of one fragment, and no body. */
  lemma PrioritizedRunIsDeliveredIff(id: nat, info: Priority, limits: Limits, block: Str,
                                         headersAreEndStream: bool, body: Str)
    requires limits.maxFrameSize > ADDITIONAL_HEADERS_DATA_SIZE && id != 0
    ensures var frames := MessageFrames(id, limits, block, headersAreEndStream, body);
            && OwnFrames(frames)
            && (DeliveredOn(Prioritized(info), id, frames, block, body)
                <==> 0 < |block| <= MaxHeaderPayload(limits) && headersAreEndStream && body == [])
  {
    hide OnStream, Whole;
    var frames := MessageFrames(id, limits, block, headersAreEndStream, body);
    MessageFramesAreOwn(id, limits, block, headersAreEndStream, body);
    DataFramesAreOwn(id, limits.maxFrameSize, body, 0);
    HeaderFramesAreOwn(id, MaxHeaderPayload(limits), block, 0, headersAreEndStream);
    if block != [] {
      PrioritizedFirst(id, info, limits, block, headersAreEndStream, body);
    } else if body != [] {
      assert frames[0].Data?;
      IdleRefuses(Prioritized(info).value, frames, Finished(id));
    }
  }

  /** The same from an unused stream, with the PRIORITY frame in front. */
  lemma PrioritizedMessageIsDeliveredIff(id: nat, info: Priority, limits: Limits, block: Str,
                                         headersAreEndStream: bool, body: Str)
    requires limits.maxFrameSize > ADDITIONAL_HEADERS_DATA_SIZE && id != 0
    ensures var frames := [PriorityFrame(id, info)] + MessageFrames(id, limits, block, headersAreEndStream, body);
            && OwnFrames(frames)
            && Verdicts(None, frames)[0] == Fine
            && (DeliveredOn(None, id, frames, block, body)
                <==> 0 < |block| <= MaxHeaderPayload(limits) && headersAreEndStream && body == [])
  {
    hide Whole, HeaderFrames, DataFrames;
    var message := MessageFrames(id, limits, block, headersAreEndStream, body);
    MessageFramesAreOwn(id, limits, block, headersAreEndStream, body);
    var first := [PriorityFrame(id, info)];
    RunBoth(None, first, message);
    var s := Prioritized(info);
    PriorityAlone(id, info);
    PrioritizedRunIsDeliveredIff(id, info, limits, block, headersAreEndStream, body);
    var vs := Verdicts(s, message);
    if FineUntil(vs, Finished(id)) {
      FineCons(vs, Finished(id));
    } else if FineUntil([Fine] + vs, Finished(id)) {
      FineTail(Fine, vs, Finished(id));
    }
  }

  lemma PriorityAlone(id: nat, info: Priority)
    ensures OwnFrames([PriorityFrame(id, info)])
    ensures Alone(None, [PriorityFrame(id, info)]) == Prioritized(info)
    ensures Verdicts(None, [PriorityFrame(id, info)]) == [Fine]
  {
    var frames := [PriorityFrame(id, info)];
    var e := OnStream(None, frames[0]);
    assert frames[1..] == [] && Verdicts(e.stream, frames[1..]) == [];
  }

  lemma PrioritizedFirst(id: nat, info: Priority, limits: Limits, block: Str, headersAreEndStream: bool, body: Str)
    requires limits.maxFrameSize > ADDITIONAL_HEADERS_DATA_SIZE && id != 0 && block != []
    requires OwnFrames(MessageFrames(id, limits, block, headersAreEndStream, body))
    ensures DeliveredOn(Prioritized(info), id, MessageFrames(id, limits, block, headersAreEndStream, body), block, body)
            <==> |block| <= MaxHeaderPayload(limits) && headersAreEndStream && body == []
  {
    hide OnStream, Whole;
    var max := MaxHeaderPayload(limits);
    var frames := MessageFrames(id, limits, block, headersAreEndStream, body);
    DataFramesAreOwn(id, limits.maxFrameSize, body, 0);
    HeaderFramesAreOwn(id, max, block, 0, headersAreEndStream);
    var s := Prioritized(info);
    var f := HeaderFrame(id, max, block, 0, headersAreEndStream);
    assert frames[0] == f;
    PrioritizedStep(id, info, f);
    var e := OnStream(s, f);
    var rest := frames[1..];
    assert Verdicts(s, frames) == [e.verdict] + Verdicts(e.stream, rest);
    if rest == [] {
      assert Verdicts(s, frames) == [e.verdict];
      assert Alone(s, frames) == e.stream;
      assert block[0..|block|] == block;
    } else if e.verdict == Fine {
      assert rest[0].Data? || rest[0].Continuation?;
      IdleRefuses(e.stream.value, rest, Finished(id));
      if FineUntil(Verdicts(s, frames), Finished(id)) {
        FineTail(e.verdict, Verdicts(e.stream, rest), Finished(id));
      }
    } else {
      assert Verdicts(s, frames)[0] == e.verdict != Fine;
    }
  }

  // ----- messages among the frames of other streams

  /** The verdicts that a connection gives on the frames of stream `id`. */
  ghost function VerdictsIn(c: Context, frames: seq<Frame>, id: nat): seq<Verdict>
    requires 0 !in c.streams && AllWellFormed(frames)
    decreases |frames|
  {
    if frames == [] then []
    else
      StreamZeroStaysOut(c, frames[0]);
      var p := Process(c, frames[0]);
      (if StreamId(frames[0]) == Some(id) then [p.verdict] else []) + VerdictsIn(p.context, frames[1..], id)
  }

  /** In any interleaved run a stream is answered as it would be alone. */
  lemma {:induction false} VerdictsDoNotInterfere(c: Context, frames: seq<Frame>, id: nat)
    requires 0 !in c.streams && AllWellFormed(frames) && id != 0
    ensures OwnFrames(FramesOf(frames, id))
    ensures VerdictsIn(c, frames, id) == Verdicts(Streams.Find(c.streams, id), FramesOf(frames, id))
    decreases |frames|
  {
    hide OnStream;
    FramesOfStream(frames, id);
    if frames != [] {
      var f := frames[0];
      StreamZeroStaysOut(c, f);
      var next := Process(c, f).context;
      VerdictsDoNotInterfere(next, frames[1..], id);
      if StreamId(f) == Some(id) {
        StillThere(Streams.Find(c.streams, id), f);
        assert FramesOf(frames, id)[1..] == FramesOf(frames[1..], id);
      } else {
        assert FramesOf(frames, id) == FramesOf(frames[1..], id);
        assert Streams.Find(next.streams, id) == Streams.Find(c.streams, id);
      }
    }
  }

  /** A finished verdict on a frame of the stream is a report. */
  lemma {:induction false} VerdictIsReported(c: Context, frames: seq<Frame>, id: nat)
    requires 0 !in c.streams && AllWellFormed(frames) && Finished(id) in VerdictsIn(c, frames, id)
    ensures Reports(c, frames, id) >= 1
    decreases |frames|
  {
    hide Process;
    var f := frames[0];
    StreamZeroStaysOut(c, f);
    var p := Process(c, f);
    if p.verdict != Finished(id) {
      assert VerdictsIn(c, frames, id)
          == (if StreamId(f) == Some(id) then [p.verdict] else []) + VerdictsIn(p.context, frames[1..], id);
      VerdictIsReported(p.context, frames[1..], id);
    }
  }

  /** A message whose frames come in their order, but among any frames of other
      streams and of the connection: it arrives whole, reported once in the
      whole run and on its last frame, under the condition of a message alone. */
  lemma InterleavedMessageIsDeliveredIff(c: Context, frames: seq<Frame>, id: nat, limits: Limits, block: Str,
                                         headersAreEndStream: bool, body: Str)
    requires 0 !in c.streams && AllWellFormed(frames) && id !in c.streams && id != 0
    requires limits.maxFrameSize > ADDITIONAL_HEADERS_DATA_SIZE
    requires FramesOf(frames, id) == MessageFrames(id, limits, block, headersAreEndStream, body)
    ensures var condition := block != [] && (headersAreEndStream <==> body == []);
            && (condition <==>
                  && FineUntil(VerdictsIn(c, frames, id), Finished(id))
                  && Whole(Streams.Find(After(c, frames).streams, id), block, body))
            && (condition ==> Reports(c, frames, id) == 1)
  {
    hide MessageFrames, Verdicts, VerdictsIn, Whole, Process, After, Reports;
    VerdictsDoNotInterfere(c, frames, id);
    StreamsDoNotInterfere(c, frames, id);
    MessageIsDeliveredIff(id, limits, block, headersAreEndStream, body);
    ReportedAtMostOnce(c, frames, id);
    var vs := VerdictsIn(c, frames, id);
    if FineUntil(vs, Finished(id)) {
      assert vs[|vs| - 1] in vs;
      VerdictIsReported(c, frames, id);
    }
  }

  // ----- the senders

  /** Write the fragments of a header block; a fragment that cannot be written
      ends the sending. */
  method SendHeaders(id: nat, limits: Limits, block: Str, endStream: bool) returns (ok: bool, sent: Str)
    requires limits.maxFrameSize > ADDITIONAL_HEADERS_DATA_SIZE && id != 0
    ensures AllSendable(HeaderFrames(id, MaxHeaderPayload(limits), block, 0, endStream))
    ensures Wire(HeaderFrames(id, MaxHeaderPayload(limits), block, 0, endStream)) == if ok then Some(sent) else None
  {
    hide Write, HeaderFrame;
    var max := MaxHeaderPayload(limits);
    HeaderFramesAreOwn(id, max, block, 0, endStream);
    ghost var frames := HeaderFrames(id, max, block, 0, endStream);
    var offset := 0;
    sent := [];
    ghost var rest := frames;
    BehindNothing(sent, Wire(rest));
    while offset < |block|
      invariant 0 <= offset <= |block|
      invariant rest == HeaderFrames(id, max, block, offset, endStream) && AllSendable(rest)
      invariant Wire(frames) == Behind(sent, Wire(rest))
      decreases |block| - offset
    {
      var frame := HeaderFrame(id, max, block, offset, endStream);
      var bytes := Write(frame);
      WireStep(sent, rest);
      if bytes.None? {
        return false, sent;
      }
      sent := sent + bytes.value;
      offset := offset + FragmentSize(|block|, offset, max);
      rest := rest[1..];
    }
    BehindNothing(sent, None);
    ok := true;
  }

  ghost function Behind(sent: Str, rest: Option<Str>): Option<Str> {
    if rest.None? then None else Some(sent + rest.value)
  }

  lemma BehindNothing(sent: Str, rest: Option<Str>)
    ensures Behind([], rest) == rest && Behind(sent, Some([])) == Some(sent)
  {
    if rest.Some? {
      assert [] + rest.value == rest.value;
    }
    assert sent + [] == sent;
  }

  lemma WireStep(sent: Str, rest: seq<Frame>)
    requires AllSendable(rest) && rest != []
    ensures AllSendable(rest[1..])
    ensures Behind(sent, Wire(rest))
         == if Write(rest[0]).None? then None else Behind(sent + Write(rest[0]).value, Wire(rest[1..]))
  {
    if Write(rest[0]).Some? && Wire(rest[1..]).Some? {
      var first, behind := Write(rest[0]).value, Wire(rest[1..]).value;
      assert sent + (first + behind) == sent + first + behind;
    }
  }

  method SendData(id: nat, limits: Limits, body: Str) returns (ok: bool, sent: Str)
    requires limits.maxFrameSize > 0 && id != 0
    ensures AllSendable(DataFrames(id, limits.maxFrameSize, body, 0))
    ensures Wire(DataFrames(id, limits.maxFrameSize, body, 0)) == if ok then Some(sent) else None
  {
    hide Write, DataFrame;
    var max := limits.maxFrameSize;
    DataFramesAreOwn(id, max, body, 0);
    ghost var frames := DataFrames(id, max, body, 0);
    var offset := 0;
    sent := [];
    ghost var rest := frames;
    BehindNothing(sent, Wire(rest));
    while offset < |body|
      invariant 0 <= offset <= |body|
      invariant rest == DataFrames(id, max, body, offset) && AllSendable(rest)
      invariant Wire(frames) == Behind(sent, Wire(rest))
      decreases |body| - offset
    {
      var frame := DataFrame(id, max, body, offset);
      var bytes := Write(frame);
      WireStep(sent, rest);
      if bytes.None? {
        return false, sent;
      }
      sent := sent + bytes.value;
      offset := offset + FragmentSize(|body|, offset, max);
      rest := rest[1..];
    }
    BehindNothing(sent, None);
    ok := true;
  }

  lemma {:induction false} WireExists(frames: seq<Frame>)
    requires AllSendable(frames)
    ensures Wire(frames).Some? <==> forall i | 0 <= i < |frames| :: |Payload(frames[i])| < LENGTH_LIMIT
    decreases |frames|
  {
    hide Payload, WriteRawHeader;
    if frames != [] {
      WireExists(frames[1..]);
      assert forall i | 1 <= i < |frames| :: frames[i] == frames[1..][i - 1];
      assert forall i | 0 <= i < |frames[1..]| :: frames[1..][i] == frames[i + 1];
    }
  }

  /** The body can be sent unless the peer allows frames of 2^24 bytes and the
      body fills one: the length field has no room for that size. */
  lemma BodyCanBeSentIff(id: nat, limits: Limits, body: Str)
    requires SaneLimits(limits) && id != 0
    ensures AllSendable(DataFrames(id, limits.maxFrameSize, body, 0))
    ensures Wire(DataFrames(id, limits.maxFrameSize, body, 0)).Some?
       <==> !(limits.maxFrameSize == LENGTH_LIMIT && |body| >= LENGTH_LIMIT)
  {
    var max := limits.maxFrameSize;
    var frames := DataFrames(id, max, body, 0);
    DataFramesAreOwn(id, max, body, 0);
    WireExists(frames);
    if |body| > 0 && max == LENGTH_LIMIT {
      assert frames[0] == DataFrame(id, max, body, 0);
      if |body| < LENGTH_LIMIT {
        assert frames == [frames[0]];
      }
    }
  }

  /** The value that the settings parser lets through, and a body of that size. */
  lemma LargestFrameCannotBeSent(id: nat)
    requires id != 0
    ensures var entries := [Setting(MAX_FRAME_SIZE, LENGTH_LIMIT)];
            var limits := ApplySettings(DEFAULT_LIMITS, entries);
            var frames := DataFrames(id, limits.maxFrameSize, seq(LENGTH_LIMIT, _ => 0), 0);
            WellFormed(Settings(false, entries)) && AllSendable(frames) && Wire(frames).None?
  {
    var entries := [Setting(MAX_FRAME_SIZE, LENGTH_LIMIT)];
    SettingsStaySane(DEFAULT_LIMITS, entries);
    assert entries[..0] == [];
    BodyCanBeSentIff(id, ApplySettings(DEFAULT_LIMITS, entries), seq(LENGTH_LIMIT, _ => 0));
  }

  /** A header block can always be sent. */
  lemma HeadersCanBeSent(id: nat, limits: Limits, block: Str, endStream: bool)
    requires SaneLimits(limits) && id != 0
    ensures AllSendable(HeaderFrames(id, MaxHeaderPayload(limits), block, 0, endStream))
    ensures Wire(HeaderFrames(id, MaxHeaderPayload(limits), block, 0, endStream)).Some?
  {
    HeaderFramesAreOwn(id, MaxHeaderPayload(limits), block, 0, endStream);
    WireExists(HeaderFrames(id, MaxHeaderPayload(limits), block, 0, endStream));
  }
}
