/** The buffered reader (src/utils/buffered_reader.c) over a descriptor that
    delivers its bytes in arbitrary non-empty pieces. */
module BufferedReader {
  import opened Wrappers

  /** How the byte stream of the peer ends. */
  datatype Ending = Eof | Broken

  datatype Piece = Data(bytes: Str) | End(ending: Ending)

  /** The descriptor. Each read takes any non-empty piece that fits. */
  class Descriptor {
    var pending: Str
    const ending: Ending

    constructor (pending: Str, ending: Ending)
      ensures this.pending == pending && this.ending == ending
    {
      this.pending := pending;
      this.ending := ending;
    }

    method Read(amount: nat) returns (r: Piece)
      requires amount > 0
      modifies this
      ensures old(pending) == [] ==> r == End(ending) && pending == []
      ensures old(pending) != [] ==> r.Data? && 1 <= |r.bytes| <= amount && old(pending) == r.bytes + pending
    {
      if pending == [] {
        return End(ending);
      }
      var n :| 1 <= n <= amount && n <= |pending|;
      r := Data(pending[..n]);
      pending := pending[n..];
    }
  }

  // ----- what a caller sees, without any buffer

  datatype Stream = Open(unread: Str, ending: Ending) | Closed | Failed

  datatype Answer = Bytes(data: Str) | AtEnd | Failure

  datatype Reply = Reply(answer: Answer, after: Stream)

  function Ended(ending: Ending): Reply {
    match ending
    case Eof => Reply(AtEnd, Closed)
    case Broken => Reply(Failure, Failed)
  }

  function Refused(s: Stream): Reply {
    Reply(if s.Closed? then AtEnd else Failure, s)
  }

  function Take(s: Stream, amount: nat): Reply {
    if !s.Open? then Refused(s)
    else if |s.unread| >= amount then Reply(Bytes(s.unread[..amount]), Open(s.unread[amount..], s.ending))
    else Ended(s.ending)
  }

  function TakeAll(s: Stream): Reply {
    match s
    case Open(unread, Eof) => Reply(Bytes(unread), Closed)
    case Open(_, Broken) => Reply(Failure, Failed)
    case Closed => Reply(Bytes([]), Closed)
    case Failed => Reply(Failure, Failed)
  }

  /** The matcher: `matched` bytes of the delimiter precede position `i`. A
      mismatch starts over behind the mismatching byte. The result is the
      position behind the delimiter. */
  function Scan(u: Str, delimiter: Str, i: nat, matched: nat): Option<nat>
    requires matched < |delimiter| && i <= |u|
    decreases |u| - i
  {
    if i == |u| then None
    else if u[i] != delimiter[matched] then Scan(u, delimiter, i + 1, 0)
    else if matched + 1 == |delimiter| then Some(i + 1)
    else Scan(u, delimiter, i + 1, matched + 1)
  }

  lemma ScanStep(u: Str, delimiter: Str, i: nat, matched: nat)
    requires matched < |delimiter| && i < |u|
    ensures Scan(u, delimiter, i, matched)
         == if u[i] != delimiter[matched] then Scan(u, delimiter, i + 1, 0)
            else if matched + 1 == |delimiter| then Some(i + 1)
            else Scan(u, delimiter, i + 1, matched + 1)
  {
  }

  lemma ScanEnd(u: Str, delimiter: Str, matched: nat)
    requires matched < |delimiter|
    ensures Scan(u, delimiter, |u|, matched) == None
  {
  }

  function TakeUntil(s: Stream, delimiter: Str): Reply
    requires delimiter != []
  {
    if !s.Open? then Refused(s)
    else
      match Scan(s.unread, delimiter, 0, 0)
      case None => Ended(s.ending)
      case Some(n) =>
        ScanIsSound(s.unread, delimiter, 0, 0);
        Reply(Bytes(s.unread[..n - |delimiter|]), Open(s.unread[n..], s.ending))
  }

  lemma MatchGrows(u: Str, delimiter: Str, i: nat, matched: nat)
    requires matched < |delimiter| && matched <= i < |u|
    requires u[i - matched..i] == delimiter[..matched] && u[i] == delimiter[matched]
    ensures u[i - matched..i + 1] == delimiter[..matched + 1]
  {
    assert u[i - matched..i + 1] == u[i - matched..i] + [u[i]];
    assert delimiter[..matched + 1] == delimiter[..matched] + [delimiter[matched]];
  }

  /** A match is a match: the delimiter lies right before the position found. */
  lemma {:induction false} ScanIsSound(u: Str, delimiter: Str, i: nat, matched: nat)
    requires matched < |delimiter| && matched <= i <= |u| && u[i - matched..i] == delimiter[..matched]
    ensures var n := Scan(u, delimiter, i, matched);
            n.Some? ==> && i <= n.value <= |u| && |delimiter| <= n.value
                        && n.value - i >= |delimiter| - matched
                        && u[n.value - |delimiter|..n.value] == delimiter
    decreases |u| - i
  {
    if i < |u| {
      if u[i] != delimiter[matched] {
        ScanIsSound(u, delimiter, i + 1, 0);
      } else {
        MatchGrows(u, delimiter, i, matched);
        if matched + 1 < |delimiter| {
          ScanIsSound(u, delimiter, i + 1, matched + 1);
        }
      }
    }
  }

  /** Every result of a delimiter read, with the delimiter behind it, is
      exactly what left the stream. */
  lemma DelimitedBytesAreConsumed(s: Stream, delimiter: Str)
    requires s.Open? && delimiter != [] && TakeUntil(s, delimiter).answer.Bytes?
    ensures var r := TakeUntil(s, delimiter);
            r.after.Open? && s.unread == r.answer.data + delimiter + r.after.unread
  {
    ScanIsSound(s.unread, delimiter, 0, 0);
    var n := Scan(s.unread, delimiter, 0, 0).value;
    assert s.unread == s.unread[..n - |delimiter|] + s.unread[n - |delimiter|..n] + s.unread[n..];
  }

  /** The usual case: text without the first byte of the delimiter, then the
      delimiter. The text is the answer, and the rest stays. */
  lemma PlainTextIsFound(text: Str, delimiter: Str, rest: Str, ending: Ending)
    requires delimiter != [] && delimiter[0] !in text
    ensures TakeUntil(Open(text + delimiter + rest, ending), delimiter) == Reply(Bytes(text), Open(rest, ending))
  {
    var u := text + delimiter + rest;
    ScanText(u, delimiter, 0, |text|);
    ScanMatch(u, delimiter, |text|, 0);
    assert u[..|text|] == text && u[|text + delimiter|..] == rest;
  }

  lemma {:induction false} ScanText(u: Str, delimiter: Str, i: nat, n: nat)
    requires delimiter != [] && i <= n <= |u| && forall k | i <= k < n :: u[k] != delimiter[0]
    ensures Scan(u, delimiter, i, 0) == Scan(u, delimiter, n, 0)
    decreases n - i
  {
    if i < n {
      ScanText(u, delimiter, i + 1, n);
    }
  }

  lemma {:induction false} ScanMatch(u: Str, delimiter: Str, at: nat, matched: nat)
    requires matched < |delimiter| && at + |delimiter| <= |u|
    requires forall k | matched <= k < |delimiter| :: u[at + k] == delimiter[k]
    ensures Scan(u, delimiter, at + matched, matched) == Some(at + |delimiter|)
    decreases |delimiter| - matched
  {
    assert u[at + matched] == delimiter[matched];
    if matched + 1 < |delimiter| {
      ScanMatch(u, delimiter, at, matched + 1);
    }
  }

  // ----- where the matcher is complete

  ghost predicate EndsAt(u: Str, delimiter: Str, n: nat) {
    |delimiter| <= n <= |u| && u[n - |delimiter|..n] == delimiter
  }

  /** `n` is where the first occurrence of the delimiter ends, if there is one. */
  ghost predicate IsFirst(u: Str, delimiter: Str, n: Option<nat>) {
    && (n.Some? ==> EndsAt(u, delimiter, n.value))
    && forall m: nat :: EndsAt(u, delimiter, m) ==> n.Some? && n.value <= m
  }

  ghost predicate RepeatsOneByte(delimiter: Str) {
    forall i, j | 0 <= i < j < |delimiter| :: delimiter[i] == delimiter[j]
  }

  ghost predicate NoneUpTo(u: Str, delimiter: Str, i: nat) {
    forall m: nat | m <= i :: !EndsAt(u, delimiter, m)
  }

  lemma NoneAtAll(u: Str, delimiter: Str)
    requires NoneUpTo(u, delimiter, |u|)
    ensures IsFirst(u, delimiter, None)
  {
  }

  lemma FoundFirst(u: Str, delimiter: Str, i: nat)
    requires NoneUpTo(u, delimiter, i) && EndsAt(u, delimiter, i + 1)
    ensures IsFirst(u, delimiter, Some(i + 1))
  {
  }

  lemma NoneOneMore(u: Str, delimiter: Str, i: nat)
    requires NoneUpTo(u, delimiter, i) && !EndsAt(u, delimiter, i + 1)
    ensures NoneUpTo(u, delimiter, i + 1)
  {
  }

  /** For a repeated byte, what has been matched is the whole run of that byte. */
  lemma {:induction false} RunsAreFound(u: Str, delimiter: Str, i: nat, matched: nat)
    requires RepeatsOneByte(delimiter) && matched < |delimiter| && matched <= i <= |u|
    requires u[i - matched..i] == delimiter[..matched]
    requires matched < i ==> u[i - matched - 1] != delimiter[0]
    requires NoneUpTo(u, delimiter, i)
    ensures IsFirst(u, delimiter, Scan(u, delimiter, i, matched))
    decreases |u| - i
  {
    hide Scan, RepeatsOneByte, EndsAt, NoneUpTo, IsFirst;
    if i == |u| {
      ScanEnd(u, delimiter, matched);
      NoneAtAll(u, delimiter);
    } else {
      ScanStep(u, delimiter, i, matched);
      if u[i] != delimiter[matched] {
        OtherByte(u, delimiter, i, matched);
        NoneOneMore(u, delimiter, i);
        RunsAreFound(u, delimiter, i + 1, 0);
      } else {
        MatchGrows(u, delimiter, i, matched);
        if matched + 1 < |delimiter| {
          NotYet(u, delimiter, i, matched);
          NoneOneMore(u, delimiter, i);
          RunsAreFound(u, delimiter, i + 1, matched + 1);
        } else {
          WholeMatch(u, delimiter, i);
          FoundFirst(u, delimiter, i);
        }
      }
    }
  }

  lemma WholeMatch(u: Str, delimiter: Str, i: nat)
    requires |delimiter| <= i + 1 <= |u| && u[i + 1 - |delimiter|..i + 1] == delimiter[..|delimiter|]
    ensures EndsAt(u, delimiter, i + 1)
  {
    assert delimiter[..|delimiter|] == delimiter;
  }

  /** A run that is still too short is not an occurrence. */
  lemma NotYet(u: Str, delimiter: Str, i: nat, matched: nat)
    requires RepeatsOneByte(delimiter) && matched + 1 < |delimiter| && matched <= i < |u|
    requires matched < i ==> u[i - matched - 1] != delimiter[0]
    ensures !EndsAt(u, delimiter, i + 1)
  {
    var at := |delimiter| - matched - 2;
    ByteBefore(u, delimiter, i + 1, at);
  }

  lemma ByteBefore(u: Str, delimiter: Str, n: nat, at: nat)
    requires at < |delimiter|
    ensures EndsAt(u, delimiter, n) ==> u[n - |delimiter| + at] == delimiter[at]
  {
    assert EndsAt(u, delimiter, n) ==> u[n - |delimiter|..n][at] == u[n - |delimiter| + at];
  }

  lemma OtherByte(u: Str, delimiter: Str, i: nat, matched: nat)
    requires RepeatsOneByte(delimiter) && matched < |delimiter| && i < |u|
    requires u[i] != delimiter[matched]
    ensures !EndsAt(u, delimiter, i + 1) && u[i] != delimiter[0]
  {
    ByteBefore(u, delimiter, i + 1, |delimiter| - 1);
  }

  /** A delimiter of two different bytes is missed behind a broken start of
      itself, as in a carriage return before a line end. */
  lemma BrokenStartIsMissed(delimiter: Str, j: nat)
    requires 0 < j < |delimiter| && delimiter[j] != delimiter[0]
    requires forall k | 0 <= k < j :: delimiter[k] == delimiter[0]
    ensures var u := delimiter[..j] + delimiter;
            EndsAt(u, delimiter, |u|) && Scan(u, delimiter, 0, 0) == None
  {
    var u := delimiter[..j] + delimiter;
    assert u[|u| - |delimiter|..|u|] == delimiter;
    ScanRun(u, delimiter, j, 0);
    assert u[j] == delimiter[0];
    ScanIsSound(u, delimiter, j + 1, 0);
  }

  lemma {:induction false} ScanRun(u: Str, delimiter: Str, j: nat, i: nat)
    requires i <= j < |delimiter| && j <= |u| && u[..j] == delimiter[..j]
    ensures Scan(u, delimiter, i, i) == Scan(u, delimiter, j, j)
    decreases j - i
  {
    if i < j {
      assert u[i] == u[..j][i] == delimiter[..j][i];
      ScanRun(u, delimiter, j, i + 1);
    }
  }

  /** The matcher finds the first occurrence in every stream if and only if the
      delimiter is one byte, repeated or not. */
  lemma FirstOccurrenceIff(delimiter: Str)
    requires delimiter != []
    ensures (forall u: Str :: IsFirst(u, delimiter, Scan(u, delimiter, 0, 0))) <==> RepeatsOneByte(delimiter)
  {
    if RepeatsOneByte(delimiter) {
      forall u: Str
        ensures IsFirst(u, delimiter, Scan(u, delimiter, 0, 0))
      {
        RunsAreFound(u, delimiter, 0, 0);
      }
    } else {
      var j := FirstDifferent(delimiter, 1);
      BrokenStartIsMissed(delimiter, j);
      var u := delimiter[..j] + delimiter;
      assert !IsFirst(u, delimiter, Scan(u, delimiter, 0, 0));
    }
  }

  lemma {:induction false} FirstDifferent(delimiter: Str, from: nat) returns (j: nat)
    requires 0 < from <= |delimiter| && !RepeatsOneByte(delimiter)
    requires forall k | 0 <= k < from :: delimiter[k] == delimiter[0]
    ensures 0 < j < |delimiter| && delimiter[j] != delimiter[0]
    ensures forall k | 0 <= k < j :: delimiter[k] == delimiter[0]
    decreases |delimiter| - from
  {
    if from < |delimiter| && delimiter[from] != delimiter[0] {
      j := from;
    } else {
      j := FirstDifferent(delimiter, from + 1);
    }
  }

  // ----- the reader

  lemma SplitUnread(buffer: Str, pending: Str, cursor: nat, amount: nat)
    requires cursor + amount <= |buffer|
    ensures (buffer[cursor..] + pending)[..amount] == buffer[cursor..cursor + amount]
    ensures (buffer[cursor..] + pending)[amount..] == buffer[cursor + amount..] + pending
  {
  }

  datatype State = StateOpen | StateClosed | StateError

  const CHUNK_SIZE: nat := 512

  class Reader {
    const descriptor: Descriptor
    var state: State
    var cursor: nat
    var buffer: Str

    ghost predicate Valid()
      reads this
    {
      cursor <= |buffer|
    }

    ghost function Abstract(): Stream
      requires Valid()
      reads this, descriptor
    {
      match state
      case StateOpen => Open(buffer[cursor..] + descriptor.pending, descriptor.ending)
      case StateClosed => Closed
      case StateError => Failed
    }

    constructor (descriptor: Descriptor)
      ensures Valid() && this.descriptor == descriptor
      ensures Abstract() == Open(descriptor.pending, descriptor.ending)
    {
      this.descriptor := descriptor;
      state, cursor, buffer := StateOpen, 0, [];
    }

    /** The source's second test, for a cursor beyond the buffer, cannot fire. */
    method IsSafeToRead() returns (safe: bool)
      requires Valid()
      ensures safe <==> state == StateOpen
    {
      if state != StateOpen {
        return false;
      }
      assert cursor <= |buffer|;
      return true;
    }

    /** One read appended to the buffer; 0 when the stream has ended. */
    method GetMoreDataPartially(amount: nat) returns (n: nat)
      requires Valid() && state == StateOpen && amount > 0
      modifies this, descriptor
      ensures Valid() && cursor == old(cursor)
      ensures state == StateOpen ==>
                && 1 <= n <= amount && |buffer| == |old(buffer)| + n
                && old(buffer) + old(descriptor.pending) == buffer + descriptor.pending
      ensures state != StateOpen ==>
                && n == 0 && buffer == old(buffer) && old(descriptor.pending) == descriptor.pending == []
                && state == if descriptor.ending.Eof? then StateClosed else StateError
    {
      var r := descriptor.Read(amount);
      match r
      case End(ending) =>
        state := if ending.Eof? then StateClosed else StateError;
        return 0;
      case Data(bytes) =>
        buffer := buffer + bytes;
        return |bytes|;
    }

    method GetMoreDataExact(amount: nat)
      requires Valid() && state == StateOpen && amount > 0
      modifies this, descriptor
      ensures Valid() && cursor == old(cursor)
      ensures buffer + descriptor.pending == old(buffer) + old(descriptor.pending)
      ensures state == StateOpen <==> |old(descriptor.pending)| >= amount
      ensures state == StateOpen ==> |buffer| == |old(buffer)| + amount
      ensures state != StateOpen ==>
                descriptor.pending == [] && state == if descriptor.ending.Eof? then StateClosed else StateError
    {
      var amountLeft := amount;
      while state == StateOpen
        invariant Valid() && cursor == old(cursor)
        invariant 0 < amountLeft <= amount
        invariant buffer + descriptor.pending == old(buffer) + old(descriptor.pending)
        invariant state == StateOpen ==> |buffer| == |old(buffer)| + amount - amountLeft
        invariant state != StateOpen ==>
                    && |buffer| < |old(buffer)| + amount && descriptor.pending == []
                    && state == if descriptor.ending.Eof? then StateClosed else StateError
        decreases state == StateOpen, amountLeft
      {
        var dataRead := GetMoreDataPartially(amountLeft);
        if dataRead == amountLeft {
          return;
        }
        amountLeft := amountLeft - dataRead;
      }
    }

    method AvailableLength() returns (n: nat)
      requires Valid()
      ensures n == if state == StateOpen then |buffer| - cursor else 0
    {
      n := if state == StateOpen then |buffer| - cursor else 0;
    }

    method GetAmount(amount: nat) returns (r: Answer)
      requires Valid()
      modifies this, descriptor
      ensures Valid()
      ensures Reply(r, Abstract()) == Take(old(Abstract()), amount)
    {
      var safe := IsSafeToRead();
      if !safe {
        return if state == StateClosed then AtEnd else Failure;
      }
      ghost var unread := buffer[cursor..] + descriptor.pending;
      var available := AvailableLength();
      if available < amount {
        assert unread == (buffer + descriptor.pending)[cursor..];
        GetMoreDataExact(amount - available);
        assert unread == buffer[cursor..] + descriptor.pending by {
          assert (buffer + descriptor.pending)[cursor..] == buffer[cursor..] + descriptor.pending;
        }
        if state != StateOpen {
          return if state == StateClosed then AtEnd else Failure;
        }
      }
      r := Bytes(buffer[cursor..cursor + amount]);
      SplitUnread(buffer, descriptor.pending, cursor, amount);
      cursor := cursor + amount;
    }

    method GetUntilEnd() returns (r: Answer)
      requires Valid()
      modifies this, descriptor
      ensures Valid()
      ensures Reply(r, Abstract()) == TakeAll(old(Abstract()))
    {
      var safe := IsSafeToRead();
      if !safe {
        return if state == StateClosed then Bytes([]) else Failure;
      }
      ghost var startCursor := cursor;
      ghost var unread := buffer[cursor..] + descriptor.pending;
      while state == StateOpen
        invariant Valid() && cursor == startCursor
        invariant buffer[cursor..] + descriptor.pending == unread
        invariant state != StateOpen ==>
                    descriptor.pending == [] && state == if descriptor.ending.Eof? then StateClosed else StateError
        decreases state == StateOpen, |descriptor.pending|
      {
        ghost var all := buffer + descriptor.pending;
        assert all[cursor..] == unread;
        GetMoreDataExact(CHUNK_SIZE);
        assert (buffer + descriptor.pending)[cursor..] == buffer[cursor..] + descriptor.pending;
      }
      if state == StateError {
        return Failure;
      }
      assert cursor == startCursor;
      r := Bytes(buffer[cursor..]);
      assert buffer[cursor..] == unread;
      cursor := |buffer|;
    }

    /** Look at bytes one by one, reading more when the buffer is used up. */
    method GetUntilDelimiter(delimiter: Str) returns (r: Answer)
      requires Valid() && delimiter != []
      modifies this, descriptor
      ensures Valid()
      ensures Reply(r, Abstract()) == TakeUntil(old(Abstract()), delimiter)
    {
      var safe := IsSafeToRead();
      if !safe {
        return if state == StateClosed then AtEnd else Failure;
      }
      ghost var unread := buffer[cursor..] + descriptor.pending;
      var startCursor := cursor;
      var found := Search(delimiter, unread);
      if !found {
        return if state == StateClosed then AtEnd else Failure;
      }
      ScanIsSound(unread, delimiter, 0, 0);
      Consumed(unread, startCursor, cursor, |delimiter|);
      r := Bytes(buffer[startCursor..cursor - |delimiter|]);
    }

    /** Move the cursor behind the delimiter, or find the stream ended. */
    method Search(delimiter: Str, ghost unread: Str) returns (found: bool)
      requires Valid() && state == StateOpen && delimiter != []
      requires buffer[cursor..] + descriptor.pending == unread
      modifies this, descriptor
      ensures Valid() && cursor >= old(cursor) && (found <==> state == StateOpen)
      ensures found ==> Scan(unread, delimiter, 0, 0) == Some(cursor - old(cursor))
      ensures found ==> buffer[old(cursor)..] + descriptor.pending == unread
      ensures !found ==> Scan(unread, delimiter, 0, 0) == None
      ensures !found ==> state == if descriptor.ending.Eof? then StateClosed else StateError
    {
      hide Scan;
      var delimiterIndex := 0;
      var startCursor := cursor;
      while true
        invariant Valid() && state == StateOpen && startCursor <= cursor
        invariant buffer[startCursor..] + descriptor.pending == unread
        invariant delimiterIndex < |delimiter|
        invariant Scan(unread, delimiter, 0, 0) == Scan(unread, delimiter, cursor - startCursor, delimiterIndex)
        decreases |unread| - (cursor - startCursor)
      {
        if cursor >= |buffer| {
          found := EnsureByte(startCursor, unread);
          if !found {
            ScanEnd(unread, delimiter, delimiterIndex);
            return;
          }
        }
        assert buffer[cursor] == unread[cursor - startCursor];
        ScanStep(unread, delimiter, cursor - startCursor, delimiterIndex);
        if buffer[cursor] == delimiter[delimiterIndex] {
          delimiterIndex := delimiterIndex + 1;
          if delimiterIndex >= |delimiter| {
            cursor := cursor + 1;
            return true;
          }
        } else {
          delimiterIndex := 0;
        }
        cursor := cursor + 1;
      }
    }

    /** At least one more byte behind a used-up buffer, or the end of the stream. */
    method EnsureByte(startCursor: nat, ghost unread: Str) returns (ok: bool)
      requires Valid() && state == StateOpen && startCursor <= cursor == |buffer|
      requires buffer[startCursor..] + descriptor.pending == unread
      modifies this, descriptor
      ensures Valid() && cursor == old(cursor) && (ok <==> state == StateOpen)
      ensures ok ==> cursor < |buffer| && buffer[startCursor..] + descriptor.pending == unread
      ensures !ok ==>
                && |unread| == cursor - startCursor
                && state == if descriptor.ending.Eof? then StateClosed else StateError
    {
      ghost var all := buffer + descriptor.pending;
      assert all[startCursor..] == unread;
      var dataRead := GetMoreDataPartially(CHUNK_SIZE);
      assert state == StateOpen ==>
               (buffer + descriptor.pending)[startCursor..] == buffer[startCursor..] + descriptor.pending;
      assert state == StateOpen ==> dataRead >= 1;
      ok := state == StateOpen;
    }

    lemma Consumed(unread: Str, startCursor: nat, at: nat, d: nat)
      requires startCursor + d <= at <= |buffer|
      requires buffer[startCursor..] + descriptor.pending == unread
      ensures unread[..at - startCursor - d] == buffer[startCursor..at - d]
      ensures unread[at - startCursor..] == buffer[at..] + descriptor.pending
    {
    }

    /** Drop the bytes already handed out. */
    method InvalidateOldData()
      requires Valid()
      modifies this
      ensures Valid()
      ensures Abstract() == old(Abstract())
    {
      var safe := IsSafeToRead();
      if !safe {
        return;
      }
      var available := AvailableLength();
      if available == 0 {
        buffer, cursor := [], 0;
        return;
      }
      buffer := buffer[cursor..];
      cursor := 0;
    }
  }

  // ----- runs

  datatype Call = GetAmount(amount: nat) | GetUntil(delimiter: Str) | GetUntilEnd | Invalidate

  ghost predicate ValidCall(c: Call) {
    c.GetUntil? ==> c.delimiter != []
  }

  function Respond(s: Stream, c: Call): Reply
    requires ValidCall(c)
  {
    match c
    case GetAmount(n) => Take(s, n)
    case GetUntil(d) => TakeUntil(s, d)
    case GetUntilEnd => TakeAll(s)
    case Invalidate => Reply(Bytes([]), s)
  }

  /** What every call owes its caller: bytes that are handed out have left the
      stream from its front, nothing else leaves it, and a call that cannot be
      answered says how the stream ended and leaves it in that state. */
  lemma AnswersConserve(s: Stream, c: Call)
    requires ValidCall(c)
    ensures var Reply(answer, after) := Respond(s, c);
            match s
            case Open(unread, ending) =>
              if c.Invalidate? then after == s
              else if c.GetUntilEnd? then
                if ending.Eof? then answer == Bytes(unread) && after == Closed else answer == Failure && after == Failed
              else if answer.Bytes? then
                && after.Open? && after.ending == ending
                && unread == answer.data + (if c.GetUntil? then c.delimiter else []) + after.unread
                && (if c.GetAmount? then |answer.data| == c.amount else true)
              else
                && (if c.GetAmount? then |unread| < c.amount else true)
                && (answer == if ending.Eof? then AtEnd else Failure)
                && (after == if ending.Eof? then Closed else Failed)
            case Closed =>
              && after == Closed
              && (c.GetUntilEnd? ==> answer == Bytes([])) && (c.GetAmount? || c.GetUntil? ==> answer == AtEnd)
            case Failed => after == Failed && (!c.Invalidate? ==> answer == Failure)
  {
    if s.Open? && c.GetUntil? && Respond(s, c).answer.Bytes? {
      DelimitedBytesAreConsumed(s, c.delimiter);
    }
    if s.Open? && c.GetAmount? && c.amount <= |s.unread| {
      assert s.unread == s.unread[..c.amount] + [] + s.unread[c.amount..];
    }
  }

  function StreamAfter(s: Stream, calls: seq<Call>): Stream
    requires forall i | 0 <= i < |calls| :: ValidCall(calls[i])
  {
    if calls == [] then s
    else Respond(StreamAfter(s, calls[..|calls| - 1]), calls[|calls| - 1]).after
  }

  /** The answers are those of the plain stream, however the descriptor cut it:
      two readers over the same bytes answer every run of calls alike. */
  method RunCalls(reader: Reader, calls: seq<Call>) returns (answers: seq<Answer>)
    requires reader.Valid()
    requires forall i | 0 <= i < |calls| :: ValidCall(calls[i])
    modifies reader, reader.descriptor
    ensures reader.Valid() && reader.Abstract() == StreamAfter(old(reader.Abstract()), calls)
    ensures |answers| == |calls|
    ensures forall i | 0 <= i < |calls| ::
              answers[i] == Respond(StreamAfter(old(reader.Abstract()), calls[..i]), calls[i]).answer
  {
    hide Respond;
    answers := [];
    ghost var start := reader.Abstract();
    for i := 0 to |calls|
      invariant reader.Valid() && reader.Abstract() == StreamAfter(start, calls[..i])
      invariant |answers| == i
      invariant forall j | 0 <= j < i :: answers[j] == Respond(StreamAfter(start, calls[..j]), calls[j]).answer
    {
      assert calls[..i + 1][..i] == calls[..i];
      var answer := RunCall(reader, calls[i]);
      answers := answers + [answer];
    }
    assert calls[..|calls|] == calls;
  }

  method RunCall(reader: Reader, c: Call) returns (answer: Answer)
    requires reader.Valid() && ValidCall(c)
    modifies reader, reader.descriptor
    ensures reader.Valid() && Reply(answer, reader.Abstract()) == Respond(old(reader.Abstract()), c)
  {
    match c
    case GetAmount(n) => answer := reader.GetAmount(n);
    case GetUntil(d) => answer := reader.GetUntilDelimiter(d);
    case GetUntilEnd => answer := reader.GetUntilEnd();
    case Invalidate =>
      reader.InvalidateOldData();
      answer := Bytes([]);
  }
}
