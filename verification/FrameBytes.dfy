/** What the bytes of a frame mean, kind by kind: the exact conditions under
    which a frame is accepted, the error of every other one, and each part of
    the result as a stretch of the payload (src/http/v2.c:524-1777; section 6
    of RFC 7540). */
module FrameBytes {
  import opened Wrappers
  import opened Frames
  import opened FrameWriter
  import opened PrefixInteger
  import opened Bits

  // ----- numbers and flags

  lemma BigEndianValues(a: byte, b: byte, c: byte, d: byte)
    ensures FromBigEndian([a, b]) == 0x100 * a + b
    ensures FromBigEndian([a, b, c]) == 0x1_0000 * a + 0x100 * b + c
    ensures FromBigEndian([a, b, c, d]) == 0x100_0000 * a + 0x1_0000 * b + 0x100 * c + d
  {
    assert [a][..0] == [] && FromBigEndian([]) == 0;
    assert [a, b][..1] == [a] && [a, b, c][..2] == [a, b] && [a, b, c, d][..3] == [a, b, c];
    assert FromBigEndian([a]) == a;
  }

  /** Four bytes of `p` at `i`. */
  function Word(p: Str, i: nat): nat
    requires i + 4 <= |p|
  {
    0x100_0000 * p[i] as int + 0x1_0000 * p[i + 1] as int + 0x100 * p[i + 2] as int + p[i + 3] as int
  }

  lemma WordIsRead(p: Str, i: nat)
    requires i + 4 <= |p|
    ensures FromBigEndian(p[i..i + 4]) == Word(p, i)
  {
    assert p[i..i + 4] == [p[i], p[i + 1], p[i + 2], p[i + 3]];
    BigEndianValues(p[i], p[i + 1], p[i + 2], p[i + 3]);
  }

  /** Section 4.1 of RFC 7540: the layout of the frame header; the reserved bit
      in front of the identifier is ignored. */
  lemma RawHeaderLayout(p: Str)
    requires |p| == 9
    ensures ParseRawHeader(p)
         == RawHeader(0x1_0000 * p[0] as int + 0x100 * p[1] as int + p[2] as int, p[3], p[4], Word(p, 5) % 0x8000_0000)
  {
    assert p[..3] == [p[0], p[1], p[2]];
    BigEndianValues(p[0], p[1], p[2], 0);
    WordIsRead(p, 5);
  }

  /** Bit `k` of `x`, counted from the least significant one. */
  predicate Bit(x: nat, k: nat) {
    Shr(x, k) % 2 == 1
  }

  /** No bit of `x` is set but those. */
  ghost predicate OnlyBits(x: byte, bits: set<nat>) {
    forall k: nat | k < 8 :: Bit(x, k) ==> k in bits
  }

  lemma Product(p: nat, q: nat)
    requires p < 2 && q < 2
    ensures p * q == if p == 1 && q == 1 then 1 else 0
  {
  }

  lemma AndStep(a: nat, m: nat)
    ensures And(a, m) % 2 == if a % 2 == 1 && m % 2 == 1 then 1 else 0
    ensures And(a, m) / 2 == And(a / 2, m / 2)
  {
    hide And;
    AndUnfold(a, m);
  }

  lemma AndUnfold(a: nat, m: nat)
    ensures And(a, m) == (if a % 2 == 1 && m % 2 == 1 then 1 else 0) + 2 * And(a / 2, m / 2)
  {
    Product(a % 2, m % 2);
    if a == 0 || m == 0 {
      assert And(a / 2, m / 2) == 0;
    }
  }

  lemma {:induction false} AndShifts(a: nat, m: nat, k: nat)
    ensures Shr(And(a, m), k) == And(Shr(a, k), Shr(m, k))
    decreases k
  {
    hide And;
    if k > 0 {
      AndStep(a, m);
      AndShifts(a / 2, m / 2, k - 1);
    }
  }

  lemma AndIsBitwise(a: nat, m: nat, k: nat)
    ensures Bit(And(a, m), k) <==> Bit(a, k) && Bit(m, k)
  {
    hide And, Shr;
    AndShifts(a, m, k);
    AndStep(Shr(a, k), Shr(m, k));
  }

  /** Numbers of `n` bits with the same bits are equal. */
  lemma {:induction false} SameBits(a: nat, b: nat, n: nat)
    requires a < Shl(1, n) && b < Shl(1, n)
    requires forall k: nat | k < n :: Bit(a, k) <==> Bit(b, k)
    ensures a == b
    decreases n
  {
    if n > 0 {
      assert Bit(a, 0) <==> Bit(b, 0);
      forall k: nat | k < n - 1
        ensures Bit(a / 2, k) <==> Bit(b / 2, k)
      {
        assert Bit(a, k + 1) <==> Bit(b, k + 1);
      }
      SameBits(a / 2, b / 2, n - 1);
    }
  }

  lemma {:induction false} AndSmall(a: nat, m: nat, n: nat)
    requires a < Shl(1, n)
    ensures And(a, m) < Shl(1, n)
    decreases n
  {
    hide And;
    AndStep(a, m);
    if n > 0 {
      AndSmall(a / 2, m / 2, n - 1);
    } else {
      AndZero(m);
    }
  }

  lemma AndZero(m: nat)
    ensures And(0, m) == 0
  {
  }

  lemma {:induction false} NoBits(k: nat)
    ensures !Bit(0, k)
    decreases k
  {
    if k > 0 {
      NoBits(k - 1);
    }
  }

  /** The two tests on flags, bit by bit. */
  lemma FlagTests(x: byte, m: byte)
    ensures HasFlag(x, m) <==> exists k: nat | k < 8 :: Bit(x, k) && Bit(m, k)
    ensures OnlyFlags(x, m) <==> forall k: nat | k < 8 :: Bit(x, k) ==> Bit(m, k)
  {
    hide And;
    assert Shl(1, 8) == 256;
    AndSmall(x, m, 8);
    forall k: nat
      ensures Bit(And(x, m), k) <==> Bit(x, k) && Bit(m, k)
      ensures !Bit(0, k)
    {
      AndIsBitwise(x, m, k);
      NoBits(k);
    }
    if forall k: nat | k < 8 :: Bit(x, k) ==> Bit(m, k) {
      SameBits(And(x, m), x, 8);
    } else {
      var k: nat :| k < 8 && Bit(x, k) && !Bit(m, k);
      assert !Bit(And(x, m), k);
    }
    if exists k: nat | k < 8 :: Bit(x, k) && Bit(m, k) {
      var k: nat :| k < 8 && Bit(x, k) && Bit(m, k);
      assert Bit(And(x, m), k);
    } else {
      SameBits(And(x, m), 0, 8);
    }
  }

  /** The bits of the masks in use. */
  lemma MaskBits(k: nat)
    requires k < 8
    ensures Bit(0x01, k) <==> k == 0
    ensures Bit(0x04, k) <==> k == 2
    ensures Bit(0x08, k) <==> k == 3
    ensures Bit(0x20, k) <==> k == 5
    ensures Bit(0x09, k) <==> k in {0, 3}
    ensures Bit(0x0C, k) <==> k in {2, 3}
    ensures Bit(0x2D, k) <==> k in {0, 2, 3, 5}
  {
    match k
    case 0 =>
    case 1 =>
    case 2 =>
    case 3 =>
    case 4 =>
    case 5 =>
    case 6 =>
    case 7 =>
  }

  /** The flags of padded frames. */
  lemma PaddedBits(k: nat)
    requires k < 8
    ensures Bit(40, k) <==> k in {3, 5}
    ensures Bit(41, k) <==> k in {0, 3, 5}
    ensures Bit(44, k) <==> k in {2, 3, 5}
  {
    match k
    case 0 =>
    case 1 =>
    case 2 =>
    case 3 =>
    case 4 =>
    case 5 =>
    case 6 =>
    case 7 =>
  }

  lemma NoBitsAt()
    ensures forall k: nat :: !Bit(0, k)
  {
    forall k: nat
      ensures !Bit(0, k)
    {
      NoBits(k);
    }
  }

  lemma DataFlags(isEnd: bool)
    ensures var flags := if isEnd then 9 else 8;
            OnlyBits(flags, {0, 3}) && Bit(flags, 3) && (Bit(flags, 0) <==> isEnd)
  {
    forall k: nat | k < 8
      ensures Bit(8, k) <==> k == 3
      ensures Bit(9, k) <==> k in {0, 3}
    {
      MaskBits(k);
    }
  }

  lemma HeadersFlags(endStream: bool, endHeaders: bool)
    ensures var flags := 40 + (if endStream then 1 else 0) + (if endHeaders then 4 else 0);
            && OnlyBits(flags, {0, 2, 3, 5}) && Bit(flags, 3) && Bit(flags, 5)
            && (Bit(flags, 0) <==> endStream) && (Bit(flags, 2) <==> endHeaders)
  {
    forall k: nat | k < 8
      ensures Bit(40, k) <==> k in {3, 5}
      ensures Bit(41, k) <==> k in {0, 3, 5}
      ensures Bit(44, k) <==> k in {2, 3, 5}
      ensures Bit(45, k) <==> k in {0, 2, 3, 5}
    {
      PaddedBits(k);
      MaskBits(k);
    }
  }

  /** The flags of the kinds: END_STREAM and ACK are bit 0, END_HEADERS bit 2,
      PADDED bit 3, PRIORITY bit 5. */
  lemma FlagBits(x: byte)
    ensures HasFlag(x, END_STREAM) <==> Bit(x, 0)
    ensures HasFlag(x, ACK) <==> Bit(x, 0)
    ensures HasFlag(x, END_HEADERS) <==> Bit(x, 2)
    ensures HasFlag(x, PADDED) <==> Bit(x, 3)
    ensures HasFlag(x, PRIORITY) <==> Bit(x, 5)
  {
    hide And, Bit, HasFlag, OnlyFlags;
    forall k: nat | k < 8 { MaskBits(k); }
    FlagTests(x, 0x01);
    FlagTests(x, 0x04);
    FlagTests(x, 0x08);
    FlagTests(x, 0x20);
  }

  lemma AllowedBits(x: byte, m: byte, bits: set<nat>)
    requires forall k: nat | k < 8 :: Bit(m, k) <==> k in bits
    ensures OnlyFlags(x, m) <==> OnlyBits(x, bits)
  {
    hide HasFlag, OnlyFlags;
    FlagTests(x, m);
  }

  lemma AllowedFlags(x: byte)
    ensures OnlyFlags(x, 0) <==> x == 0
    ensures OnlyFlags(x, ACK) <==> OnlyBits(x, {0})
    ensures OnlyFlags(x, END_HEADERS) <==> OnlyBits(x, {2})
    ensures OnlyFlags(x, END_STREAM + PADDED) <==> OnlyBits(x, {0, 3})
    ensures OnlyFlags(x, END_HEADERS + PADDED) <==> OnlyBits(x, {2, 3})
    ensures OnlyFlags(x, END_STREAM + END_HEADERS + PADDED + PRIORITY) <==> OnlyBits(x, {0, 2, 3, 5})
  {
    NoFlags(x);
    hide And, Bit, HasFlag, OnlyFlags, OnlyBits;
    forall k: nat | k < 8
      ensures Bit(0x01, k) <==> k == 0
      ensures Bit(0x04, k) <==> k == 2
      ensures Bit(0x09, k) <==> k in {0, 3}
      ensures Bit(0x0C, k) <==> k in {2, 3}
      ensures Bit(0x2D, k) <==> k in {0, 2, 3, 5}
    {
      MaskBits(k);
    }
    AllowedBits(x, 0x01, {0});
    AllowedBits(x, 0x04, {2});
    AllowedBits(x, 0x09, {0, 3});
    AllowedBits(x, 0x0C, {2, 3});
    AllowedBits(x, 0x2D, {0, 2, 3, 5});
  }

  lemma NoFlags(x: byte)
    ensures OnlyFlags(x, 0) <==> x == 0
  {
  }

  // ----- from frames to payloads

  /** A header in front of its payload: too long for the limit, or the payload
      decides. */
  lemma FrameBytesRead(h: RawHeader, payload: Str, maxFrameSize: nat, enablePush: bool, rest: Str)
    requires |payload| == h.length < LENGTH_LIMIT && h.id < ID_LIMIT
    ensures ParseFrame(maxFrameSize, enablePush, WriteRawHeader(h) + payload + rest)
         == if h.length > maxFrameSize then Bad(FrameSizeError)
            else match ParsePayload(h, enablePush, payload + rest)
                 case Bad(code) => Bad(code)
                 case Good(item, used) => Good(item, HEADER_SIZE + used)
  {
    hide ParsePayload, ParseRawHeader, WriteRawHeader;
    RawHeaderRoundTrip(h);
    var u := WriteRawHeader(h) + payload + rest;
    assert u[0..0 + HEADER_SIZE] == WriteRawHeader(h);
    assert u[HEADER_SIZE..] == payload + rest;
  }

  /** The pad length in front, and what it leaves. */
  predicate GoodPadding(padded: bool, p: Str) {
    padded ==> |p| > 0 && p[0] < |p| - 1 && AllZero(p[|p| - p[0]..])
  }

  function Front(padded: bool): nat {
    if padded then 1 else 0
  }

  function Back(padded: bool, p: Str): nat
    requires GoodPadding(padded, p)
  {
    if padded then p[0] else 0
  }

  lemma PadLengthRead(h: RawHeader, p: Str, rest: Str)
    requires |p| == h.length
    ensures PadLength(h, p + rest)
         == if !Bit(h.flags, 3) then Good(Room(|p|, 0), 0)
            else if |p| > 0 && p[0] < |p| - 1 then Good(Room(|p| - 1 - p[0], p[0]), 1)
            else Bad(ProtocolError)
  {
    hide HasFlag;
    FlagBits(h.flags);
    if |p| > 0 {
      assert (p + rest)[0..0 + 1][0] == p[0];
    }
  }

  lemma PaddingRead(p: Str, rest: Str, padding: nat)
    requires padding <= |p|
    ensures SkipPadding(p + rest, |p| - padding, padding)
         == if AllZero(p[|p| - padding..]) then Good((), |p|) else Bad(ProtocolError)
  {
    assert (p + rest)[|p| - padding..|p| - padding + padding] == p[|p| - padding..];
  }

  // ----- the kinds

  /** DATA: the content is what lies between the pad length and the padding. */
  lemma DataRead(h: RawHeader, p: Str, enablePush: bool, rest: Str)
    requires |p| == h.length && h.kind == KIND_DATA
    ensures var r := ParsePayload(h, enablePush, p + rest);
            var padded := Bit(h.flags, 3);
            if h.id != 0 && OnlyBits(h.flags, {0, 3}) && GoodPadding(padded, p) then
              r == Good(Data(h.id, p[Front(padded)..|p| - Back(padded, p)], Bit(h.flags, 0)), |p|)
            else r == Bad(ProtocolError)
  {
    hide HasFlag, OnlyFlags, PadLength, SkipPadding, AllZero;
    FlagBits(h.flags);
    AllowedFlags(h.flags);
    PadLengthRead(h, p, rest);
    var room := PadLength(h, p + rest);
    if room.Good? {
      PaddingRead(p, rest, room.item.padding);
      var at, end := room.used, room.used + room.item.payload;
      assert (p + rest)[at..end] == p[at..end];
      NoPadding(p);
    }
  }

  lemma NoPadding(p: Str)
    ensures AllZero(p[|p|..])
  {
  }

  function PriorityAt(p: Str, i: nat): Priority
    requires i + 5 <= |p|
  {
    Priority(p[i] >= 0x80, Word(p, i) % 0x8000_0000, p[i + 4])
  }

  lemma PriorityRead(p: Str, i: nat)
    requires i + 5 <= |p|
    ensures ParsePriorityInfo(p[i..i + 5]) == PriorityAt(p, i)
  {
    assert p[i..i + 5][..4] == p[i..i + 4];
    WordIsRead(p, i);
  }

  function PrioritySize(prioritized: bool): nat {
    if prioritized then 5 else 0
  }

  /** HEADERS: the fragment is what lies between the pad length, the priority
      and the padding. */
  lemma HeadersRead(h: RawHeader, p: Str, enablePush: bool, rest: Str)
    requires |p| == h.length && h.kind == KIND_HEADERS
    ensures var r := ParsePayload(h, enablePush, p + rest);
            var padded, prioritized := Bit(h.flags, 3), Bit(h.flags, 5);
            if h.id != 0 && OnlyBits(h.flags, {0, 2, 3, 5}) && GoodPadding(padded, p)
               && Front(padded) + PrioritySize(prioritized) + Back(padded, p) <= |p| then
              var info := if prioritized then Some(PriorityAt(p, Front(padded))) else None;
              var fragment := p[Front(padded) + PrioritySize(prioritized)..|p| - Back(padded, p)];
              r == Good(Headers(h.id, info, fragment, Bit(h.flags, 0), Bit(h.flags, 2)), |p|)
            else r == Bad(ProtocolError)
  {
    hide HasFlag, OnlyFlags, PadLength, SkipPadding, AllZero, TakePriority, Bit, OnlyBits, ParseHeaders, PriorityAt;
    FlagBits(h.flags);
    AllowedFlags(h.flags);
    PadLengthRead(h, p, rest);
    HeadersRefused(h, p + rest);
    var room := PadLength(h, p + rest);
    var allowed := END_STREAM + END_HEADERS + PADDED + PRIORITY;
    if room.Good? && h.id != 0 && OnlyFlags(h.flags, allowed) {
      var at, payload, padding := room.used, room.item.payload, room.item.padding;
      HeadersParts(h, p + rest, room.item, at);
      TakePriorityRead(h, p, rest, at, payload);
      PaddingRead(p, rest, padding);
      NoPadding(p);
      var taken := TakePriority(h, p + rest, at, payload);
      if taken.Good? {
        assert (p + rest)[taken.used..taken.used + taken.item.1] == p[taken.used..|p| - padding];
      }
    }
  }

  lemma HeadersRefused(h: RawHeader, u: Str)
    ensures h.id == 0 || !OnlyFlags(h.flags, END_STREAM + END_HEADERS + PADDED + PRIORITY) ==>
              ParseHeaders(h, u) == Bad(ProtocolError)
    ensures PadLength(h, u) == Bad(ProtocolError) ==> ParseHeaders(h, u) == Bad(ProtocolError)
  {
    hide HasFlag, OnlyFlags, PadLength, SkipPadding, TakePriority, Fetch;
  }

  /** HEADERS, part by part. */
  lemma HeadersParts(h: RawHeader, u: Str, room: Room, at: nat)
    requires h.id != 0 && OnlyFlags(h.flags, END_STREAM + END_HEADERS + PADDED + PRIORITY)
    requires PadLength(h, u) == Good(room, at)
    ensures var taken := TakePriority(h, u, at, room.payload);
            ParseHeaders(h, u)
            == if taken.Bad? then Bad(taken.code)
               else if taken.used + taken.item.1 > |u| then Bad(InternalError)
               else match SkipPadding(u, taken.used + taken.item.1, room.padding)
                    case Bad(code) => Bad(code)
                    case Good(_, end) =>
                      Good(Headers(h.id, taken.item.0, u[taken.used..taken.used + taken.item.1],
                                   HasFlag(h.flags, END_STREAM), HasFlag(h.flags, END_HEADERS)), end)
  {
    hide HasFlag, OnlyFlags, PadLength, SkipPadding, TakePriority;
  }

  lemma TakePriorityRead(h: RawHeader, p: Str, rest: Str, at: nat, payload: nat)
    requires at + payload <= |p|
    ensures TakePriority(h, p + rest, at, payload)
         == if !Bit(h.flags, 5) then Good((None, payload), at)
            else if payload < 5 then Bad(ProtocolError)
            else Good((Some(PriorityAt(p, at)), payload - 5), at + 5)
  {
    hide HasFlag, Bit, ParsePriorityInfo, PriorityAt;
    FlagBits(h.flags);
    if payload >= 5 {
      assert (p + rest)[at..at + 5] == p[at..at + 5];
      PriorityRead(p, at);
    }
  }

  /** The frames of a fixed size. */
  lemma FixedRead(h: RawHeader, p: Str, enablePush: bool, rest: Str)
    requires |p| == h.length && h.kind in {KIND_PRIORITY, KIND_RST_STREAM, KIND_PING, KIND_WINDOW_UPDATE}
    ensures var r := ParsePayload(h, enablePush, p + rest);
            match h.kind
            case 2 =>
              r == (if h.id == 0 || h.flags != 0 then Bad(ProtocolError)
                    else if |p| != 5 then Bad(FrameSizeError)
                    else Good(PriorityFrame(h.id, PriorityAt(p, 0)), 5))
            case 3 =>
              r == (if h.id == 0 || h.flags != 0 then Bad(ProtocolError)
                    else if |p| != 4 then Bad(FrameSizeError)
                    else Good(RstStream(h.id, Word(p, 0)), 4))
            case 6 =>
              r == (if h.id != 0 || !OnlyBits(h.flags, {0}) then Bad(ProtocolError)
                    else if |p| != 8 then Bad(FrameSizeError)
                    else Good(Ping(Bit(h.flags, 0), p), 8))
            case _ =>
              r == (if h.flags != 0 then Bad(ProtocolError)
                    else if |p| != 4 then Bad(FrameSizeError)
                    else Good(WindowUpdate(h.id, Word(p, 0) % 0x8000_0000), 4))
  {
    hide HasFlag, OnlyFlags, FromBigEndian, ParsePriorityInfo, Word;
    FlagBits(h.flags);
    AllowedFlags(h.flags);
    var u := p + rest;
    if |p| >= 4 {
      assert u[0..0 + 4] == p[0..0 + 4];
      WordIsRead(p, 0);
    }
    if |p| >= 5 {
      assert u[0..0 + 5] == p[0..0 + 5];
      PriorityRead(p, 0);
    }
    assert |p| == 8 ==> u[0..0 + 8] == p;
  }

  lemma GoawayRead(h: RawHeader, p: Str, enablePush: bool, rest: Str)
    requires |p| == h.length && h.kind == KIND_GOAWAY
    ensures ParsePayload(h, enablePush, p + rest)
         == if h.id != 0 || h.flags != 0 then Bad(ProtocolError)
            else if |p| < 8 then Bad(FrameSizeError)
            else Good(Goaway(Word(p, 0) % 0x8000_0000, Word(p, 4), p[8..]), |p|)
  {
    hide HasFlag, OnlyFlags, FromBigEndian, Word;
    AllowedFlags(h.flags);
    if |p| >= 8 {
      var u := p + rest;
      assert u[0..0 + 8][..4] == p[0..0 + 4] && u[0..0 + 8][4..8] == p[4..4 + 4] && u[8..8 + (|p| - 8)] == p[8..];
      WordIsRead(p, 0);
      WordIsRead(p, 4);
    }
  }

  lemma ContinuationRead(h: RawHeader, p: Str, enablePush: bool, rest: Str)
    requires |p| == h.length && h.kind == KIND_CONTINUATION
    ensures ParsePayload(h, enablePush, p + rest)
         == if h.id == 0 || !OnlyBits(h.flags, {2}) then Bad(ProtocolError)
            else Good(Continuation(h.id, p, Bit(h.flags, 2)), |p|)
  {
    hide HasFlag, OnlyFlags;
    FlagBits(h.flags);
    AllowedFlags(h.flags);
    assert (p + rest)[0..0 + |p|] == p;
  }

  /** PUSH_PROMISE, as it is read: one byte stands for the promised identifier,
      so the fragment and the padding lie three bytes too far in front. */
  lemma PushPromiseRead(h: RawHeader, p: Str, enablePush: bool, rest: Str)
    requires |p| == h.length && h.kind == KIND_PUSH_PROMISE
    ensures var r := ParsePayload(h, enablePush, p + rest);
            var padded := Bit(h.flags, 3);
            var pad := if padded && |p| > 0 then p[0] else 0;
            if h.id == 0 && enablePush && OnlyBits(h.flags, {2, 3}) && (padded ==> pad < |p| - 1)
               && Front(padded) + 4 + pad <= |p| && AllZero(p[|p| - 3 - pad..|p| - 3]) then
              r == Good(PushPromise(p[Front(padded) + 1..|p| - 3 - pad], Bit(h.flags, 2)), |p| - 3)
            else r == Bad(ProtocolError)
  {
    hide HasFlag, OnlyFlags, PadLength, SkipPadding, AllZero;
    FlagBits(h.flags);
    AllowedFlags(h.flags);
    PadLengthRead(h, p, rest);
    var room := PadLength(h, p + rest);
    if room.Good? && room.item.payload >= 4 {
      var shorter := p[..|p| - 3];
      assert p + rest == shorter + (p[|p| - 3..] + rest);
      PaddingRead(shorter, p[|p| - 3..] + rest, room.item.padding);
      assert shorter[|shorter| - room.item.padding..] == p[|p| - 3 - room.item.padding..|p| - 3];
      var at, end := room.used + 1, room.used + 1 + (room.item.payload - 4);
      assert (p + rest)[at..end] == p[at..end];
    }
  }

  lemma UnknownKind(h: RawHeader, enablePush: bool, u: Str)
    requires h.kind > 9
    ensures ParsePayload(h, enablePush, u) == Bad(InternalError)
  {
  }

  // ----- settings

  function SettingBytes(s: Setting): (bytes: Str)
    ensures |bytes| == 6
  {
    BigEndian(s.identifier, 2) + BigEndian(s.value, 4)
  }

  function SettingsBytes(entries: seq<Setting>): (bytes: Str)
    ensures |bytes| == 6 * |entries|
  {
    if entries == [] then [] else SettingBytes(entries[0]) + SettingsBytes(entries[1..])
  }

  /** Section 6.5.2 of RFC 7540: the error of the first entry that is out of range. */
  function FirstError(entries: seq<Setting>): Option<ErrorCode> {
    if entries == [] then None
    else
      match entries[0].identifier
      case 2 => if entries[0].value > 1 then Some(ProtocolError) else FirstError(entries[1..])
      case 4 => if entries[0].value >= 0x8000_0000 then Some(FlowControlError) else FirstError(entries[1..])
      case 5 =>
        if entries[0].value < 0x4000 || entries[0].value > 0x100_0000 then Some(ProtocolError)
        else FirstError(entries[1..])
      case _ => FirstError(entries[1..])
  }

  /** The entries with an identifier from 1 to 6. */
  function Known(entries: seq<Setting>): seq<Setting> {
    if entries == [] then []
    else (if 1 <= entries[0].identifier <= 6 then [entries[0]] else []) + Known(entries[1..])
  }

  ghost predicate SettingFits(s: Setting) {
    s.identifier < 0x1_0000 && s.value < 0x1_0000_0000
  }

  lemma SliceOfSlice(data: Str, i: nat, n: nat, from: nat, to: nat)
    requires i + n <= |data| && from <= to <= n
    ensures data[i..i + n][from..to] == data[i + from..i + to]
  {
    var whole, part := data[i..i + n][from..to], data[i + from..i + to];
    forall k | 0 <= k < to - from
      ensures whole[k] == part[k]
    {
      assert whole[k] == data[i..i + n][from + k];
    }
  }

  lemma SettingAtRead(data: Str, i: nat, s: Setting)
    requires SettingFits(s) && i + 6 <= |data| && data[i..i + 6] == SettingBytes(s)
    ensures SettingAt(data, i) == s
  {
    FieldLimits();
    assert Pow256(2) == 0x1_0000;
    hide Pow256, BigEndian, FromBigEndian;
    BigEndianRoundTrip(s.identifier, 2);
    BigEndianRoundTrip(s.value, 4);
    SliceOfSlice(data, i, 6, 0, 2);
    SliceOfSlice(data, i, 6, 2, 6);
    var identifier, value := BigEndian(s.identifier, 2), BigEndian(s.value, 4);
    assert (identifier + value)[0..2] == identifier && (identifier + value)[2..6] == value;
  }

  lemma {:induction false} SettingsFromRead(data: Str, i: nat, entries: seq<Setting>, done: seq<Setting>)
    requires i <= |data| && data[i..] == SettingsBytes(entries)
    requires forall k | 0 <= k < |entries| :: SettingFits(entries[k])
    ensures SettingsFrom(data, i, done)
         == match FirstError(entries)
            case Some(code) => Bad(code)
            case None => Good(done + Known(entries), |data|)
    decreases |entries|
  {
    hide SettingAt, SettingBytes;
    if entries == [] {
      assert done + [] == done;
    } else {
      var s := entries[0];
      assert data[i..i + 6] == data[i..][..6] == SettingBytes(s);
      assert data[i + 6..] == data[i..][6..] == SettingsBytes(entries[1..]);
      SettingAtRead(data, i, s);
      var done' := if KnownSetting(s) then done + [s] else done;
      SettingsFromRead(data, i + 6, entries[1..], done');
      assert done' + Known(entries[1..]) == done + Known(entries);
    }
  }

  /** SETTINGS: every list of entries is read back without the unknown ones, or
      refused with the error of its first bad entry. */
  lemma SettingsRead(h: RawHeader, entries: seq<Setting>, enablePush: bool, rest: Str)
    requires h.kind == KIND_SETTINGS && h.length == 6 * |entries| && h.id == 0 && h.flags == 0
    requires forall k | 0 <= k < |entries| :: SettingFits(entries[k])
    ensures ParsePayload(h, enablePush, SettingsBytes(entries) + rest)
         == match FirstError(entries)
            case Some(code) => Bad(code)
            case None => Good(Settings(false, Known(entries)), h.length)
  {
    hide SettingsFrom, SettingsBytes, FirstError, Known, ParsePayload;
    var data := SettingsBytes(entries);
    assert (data + rest)[0..h.length] == data && data[0..] == data;
    PlainSettings(h, enablePush, data + rest);
    SettingsFromRead(data, 0, entries, []);
    assert [] + Known(entries) == Known(entries);
  }

  lemma PlainSettings(h: RawHeader, enablePush: bool, u: Str)
    requires h.kind == KIND_SETTINGS && h.id == 0 && h.flags == 0 && h.length % 6 == 0 && h.length <= |u|
    ensures ParsePayload(h, enablePush, u)
         == match ParseSettingsPayload(u[0..h.length])
            case Bad(code) => Bad(code)
            case Good(entries, _) => Good(Settings(false, entries), h.length)
  {
    hide HasFlag, OnlyFlags, ParseSettingsPayload, Bit;
    NoBitsAt();
    FlagBits(h.flags);
    AllowedFlags(h.flags);
  }

  /** The other SETTINGS frames: an acknowledgement carries nothing, and the
      rest is refused. */
  lemma SettingsHeaderRead(h: RawHeader, enablePush: bool, u: Str)
    requires h.kind == KIND_SETTINGS
    ensures var r := ParsePayload(h, enablePush, u);
            && (h.id != 0 || !OnlyBits(h.flags, {0}) ==> r == Bad(ProtocolError))
            && (h.id == 0 && OnlyBits(h.flags, {0}) && Bit(h.flags, 0) ==>
                  r == if h.length == 0 then Good(Settings(true, []), 0) else Bad(FrameSizeError))
            && (h.id == 0 && h.flags == 0 && h.length % 6 != 0 ==> r == Bad(FrameSizeError))
  {
    hide HasFlag, OnlyFlags, ParseSettingsPayload, Bit;
    NoBitsAt();
    FlagBits(h.flags);
    AllowedFlags(h.flags);
  }

  // ----- whole frames with padding

  /** A padded DATA frame, as section 6.1 of RFC 7540 lays it out. */
  lemma PaddedDataRead(id: nat, content: Str, padding: Str, isEnd: bool, maxFrameSize: nat, enablePush: bool, rest: Str)
    requires 0 < id < ID_LIMIT && |padding| < 256
    requires 1 + |content| + |padding| < LENGTH_LIMIT && 1 + |content| + |padding| <= maxFrameSize
    ensures var n := 1 + |content| + |padding|;
            var h := RawHeader(n, KIND_DATA, if isEnd then 9 else 8, id);
            ParseFrame(maxFrameSize, enablePush, WriteRawHeader(h) + ([|padding|] + content + padding) + rest)
            == if content != [] && AllZero(padding) then Good(Data(id, content, isEnd), HEADER_SIZE + n)
               else Bad(ProtocolError)
  {
    hide WriteRawHeader, ParsePayload, AllZero, Bit, OnlyBits;
    DataFlags(isEnd);
    var p: Str := [|padding|] + content + padding;
    var h := RawHeader(|p|, KIND_DATA, if isEnd then 9 else 8, id);
    FrameBytesRead(h, p, maxFrameSize, enablePush, rest);
    DataRead(h, p, enablePush, rest);
    if content != [] {
      assert p[|p| - p[0]..] == padding;
      assert p[1..|p| - p[0]] == content;
    }
  }

  function PriorityBytes(info: Priority): Str
    requires info.dependency < 0x8000_0000
  {
    BigEndian(info.dependency + (if info.exclusive then 0x8000_0000 else 0), 4) + [info.weight]
  }

  lemma PriorityBytesRead(p: Str, i: nat, info: Priority)
    requires info.dependency < 0x8000_0000 && i + 5 <= |p| && p[i..i + 5] == PriorityBytes(info)
    ensures PriorityAt(p, i) == info
  {
    hide FromBigEndian, BigEndian;
    var v := info.dependency + (if info.exclusive then 0x8000_0000 else 0);
    FieldLimits();
    BigEndianRoundTrip(v, 4);
    assert p[i..i + 4] == p[i..i + 5][..4] == BigEndian(v, 4);
    assert p[i + 4] == p[i..i + 5][4] == info.weight;
    WordIsRead(p, i);
  }

  /** A HEADERS frame with padding and priority, as section 6.2 of RFC 7540
      lays it out. */
  lemma PaddedHeadersRead(id: nat, info: Priority, fragment: Str, padding: Str, endStream: bool, endHeaders: bool,
                          maxFrameSize: nat, enablePush: bool, rest: Str)
    requires 0 < id < ID_LIMIT && |padding| < 256 && info.dependency < 0x8000_0000
    requires 6 + |fragment| + |padding| < LENGTH_LIMIT && 6 + |fragment| + |padding| <= maxFrameSize
    ensures var n := 6 + |fragment| + |padding|;
            var flags := 40 + (if endStream then 1 else 0) + (if endHeaders then 4 else 0);
            var p := [|padding|] + PriorityBytes(info) + fragment + padding;
            ParseFrame(maxFrameSize, enablePush, WriteRawHeader(RawHeader(n, KIND_HEADERS, flags, id)) + p + rest)
            == if AllZero(padding) then Good(Headers(id, Some(info), fragment, endStream, endHeaders), HEADER_SIZE + n)
               else Bad(ProtocolError)
  {
    hide WriteRawHeader, ParsePayload, AllZero, BigEndian, PriorityAt, Bit, OnlyBits;
    HeadersFlags(endStream, endHeaders);
    var prio := PriorityBytes(info);
    var p: Str := [|padding|] + prio + fragment + padding;
    var flags := 40 + (if endStream then 1 else 0) + (if endHeaders then 4 else 0);
    var h := RawHeader(|p|, KIND_HEADERS, flags, id);
    FrameBytesRead(h, p, maxFrameSize, enablePush, rest);
    HeadersRead(h, p, enablePush, rest);
    assert p[|p| - p[0]..] == padding;
    assert p[6..|p| - p[0]] == fragment;
    assert p[1..1 + 5] == prio;
    PriorityBytesRead(p, 1, info);
  }
}
