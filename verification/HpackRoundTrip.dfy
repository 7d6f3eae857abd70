/** Encoder and decoder in lockstep: what one writes the other reads, and both
    keep the same table, for exactly the header lists characterised here. */
module HpackRoundTrip {
  import opened Wrappers
  import opened PrefixInteger
  import opened HpackTable
  import opened HpackLookup
  import opened HpackCodec
  import Huffman

  // ----- strings

  /** A string literal that survives: its length fits the integer decoder, and
      the Huffman decoder can hold it. */
  ghost predicate StringSurvives(cfg: Config, s: Str, huffman: bool)
    requires |cfg.codes| == 256
  {
    && Representable(|Payload(cfg, s, huffman)|, 7)
    && !(huffman && s != [] && Huffman.FillsOutput(cfg.codes, s))
  }

  lemma PayloadEmpty(cfg: Config, s: Str, huffman: bool)
    requires ValidConfig(cfg)
    ensures Payload(cfg, s, huffman) == [] <==> s == []
  {
    if huffman {
      Huffman.RoundTrip(cfg.tree, cfg.codes, s);
      Huffman.BitsLowerBound(cfg.codes, s);
    }
  }

  lemma StringRoundTrip(cfg: Config, s: Str, huffman: bool, rest: Str)
    requires ValidConfig(cfg) && PutString(cfg, s, huffman).Some?
    ensures var bytes := PutString(cfg, s, huffman).value;
            var r := ParseString(cfg, bytes + rest);
            if StringSurvives(cfg, s, huffman) && (s != [] || rest != []) then r == Ok(Read(s, |bytes|)) else r.Err?
  {
    hide Decode, Encode, Huffman.Decode, Huffman.Encode, Huffman.FillsOutput;
    var first: byte := if huffman then 0x80 else 0x00;
    var payload := Payload(cfg, s, huffman);
    var length := Encode(first, |payload|, 7);
    var bytes := length + payload;
    var data := bytes + rest;
    assert data == length + (payload + rest);
    RoundTrip(first, |payload|, 7, payload + rest);
    FirstByte(first, |payload|, 7);
    assert data[0] == length[0];
    PayloadEmpty(cfg, s, huffman);
    if s != [] && Representable(|payload|, 7) {
      assert data[|length|..|bytes|] == payload;
      Huffman.RoundTrip(cfg.tree, cfg.codes, s);
    }
  }

  // ----- fields

  /** A representation that survives, as far as the field itself goes. */
  ghost predicate ReprSurvives(cfg: Config, repr: Repr, f: Field)
    requires |cfg.codes| == 256
  {
    match repr
    case Indexed(i) => Representable(i, 7) && !LosesValue(cfg.statics, f)
    case Literal(add, n, huffman) =>
      && Representable(n, LiteralPrefix(add))
      && (n == 0 ==> StringSurvives(cfg, f.key, huffman))
      && StringSurvives(cfg, f.value, huffman)
  }

  /** A literal with an empty value needs a byte behind it. */
  predicate NeedsMore(repr: Repr, f: Field) {
    repr.Literal? && f.value == []
  }

  lemma IndexedRoundTrip(cfg: Config, opts: Options, view: View, f: Field, rest: Str)
    requires ValidConfig(cfg) && Choose(cfg, opts, view, f).Indexed?
    requires PutRepr(cfg, Choose(cfg, opts, view, f), f).Some?
    ensures var repr := Choose(cfg, opts, view, f);
            var bytes := PutRepr(cfg, repr, f).value;
            var r := ParseStep(cfg, view, bytes + rest);
            if ReprSurvives(cfg, repr, f) then r == Ok(Step(|bytes|, Some(f), view))
            else r.Err? || (r.value.field.Some? && r.value.field != Some(f))
  {
    var i := Choose(cfg, opts, view, f).index;
    FindIsSound(cfg.statics, view, f, opts.tables.AllTables?);
    RoundTrip(0x80, i, 7, rest);
    FirstByte(0x80, i, 7);
    assert (Encode(0x80, i, 7) + rest)[0] == Encode(0x80, i, 7)[0];
  }

  /** The name part: what follows the index. */
  function NamePart(cfg: Config, n: nat, f: Field, huffman: bool): Option<Str>
    requires |cfg.codes| == 256
  {
    if n == 0 then PutString(cfg, f.key, huffman) else Some([])
  }

  lemma NameRoundTrip(cfg: Config, view: View, f: Field, n: nat, huffman: bool, index: Str, rest: Str)
    requires ValidConfig(cfg) && NamePart(cfg, n, f, huffman).Some? && rest != []
    requires n > 0 ==> Lookup(cfg.statics, view, n).Some? && Lookup(cfg.statics, view, n).value.key == f.key
    ensures var name := NamePart(cfg, n, f, huffman).value;
            var r := ParseName(cfg, view, index + name + rest, n, |index|);
            if n == 0 ==> StringSurvives(cfg, f.key, huffman) then r == Ok(Read(f.key, |index + name|)) else r.Err?
  {
    if n == 0 {
      var name := NamePart(cfg, n, f, huffman).value;
      assert (index + name + rest)[|index|..] == name + rest;
      StringRoundTrip(cfg, f.key, huffman, rest);
    }
  }

  /** The layout of a literal field: index, name unless it is indexed, value. */
  function LiteralBytes(cfg: Config, first: byte, prefix: nat, n: nat, f: Field, huffman: bool): Option<Str>
    requires |cfg.codes| == 256 && HasRoom(first, prefix)
  {
    var name :- NamePart(cfg, n, f, huffman);
    var text :- PutString(cfg, f.value, huffman);
    Some(Encode(first, n, prefix) + name + text)
  }

  ghost predicate LiteralSurvives(cfg: Config, prefix: nat, n: nat, f: Field, huffman: bool)
    requires |cfg.codes| == 256 && IsPrefix(prefix)
  {
    && Representable(n, prefix)
    && (n == 0 ==> StringSurvives(cfg, f.key, huffman))
    && StringSurvives(cfg, f.value, huffman)
  }

  /** Whatever its first byte: the layout is read back exactly when its parts
      survive and an empty value is not the end of the data. */
  lemma LiteralBytesRead(cfg: Config, view: View, f: Field, first: byte, prefix: nat, n: nat, huffman: bool, rest: Str)
    requires ValidConfig(cfg) && HasRoom(first, prefix) && LiteralBytes(cfg, first, prefix, n, f, huffman).Some?
    requires n > 0 ==> Lookup(cfg.statics, view, n).Some? && Lookup(cfg.statics, view, n).value.key == f.key
    ensures var bytes := LiteralBytes(cfg, first, prefix, n, f, huffman).value;
            var r := ParseLiteral(cfg, view, bytes + rest, prefix);
            if LiteralSurvives(cfg, prefix, n, f, huffman) && (rest != [] || f.value != []) then
              r == Ok(Read(f, |bytes|))
            else r.Err?
  {
    hide Decode, Encode, ParseString, PutString, StringSurvives, Lookup;
    var index := Encode(first, n, prefix);
    var name := NamePart(cfg, n, f, huffman).value;
    var text := PutString(cfg, f.value, huffman).value;
    var bytes := index + name + text;
    var data := bytes + rest;
    assert data == index + (name + text + rest);
    RoundTrip(first, n, prefix, name + text + rest);
    if Representable(n, prefix) {
      assert data == index + name + (text + rest);
      NameRoundTrip(cfg, view, f, n, huffman, index, text + rest);
      if n == 0 ==> StringSurvives(cfg, f.key, huffman) {
        assert data[|index + name|..] == text + rest;
        StringRoundTrip(cfg, f.value, huffman, rest);
      }
    }
  }

  lemma LiteralRoundTrip(cfg: Config, view: View, f: Field, repr: Repr, rest: Str)
    requires ValidConfig(cfg) && repr.Literal? && PutRepr(cfg, repr, f).Some?
    requires repr.nameIndex > 0 ==>
               && Lookup(cfg.statics, view, repr.nameIndex).Some?
               && Lookup(cfg.statics, view, repr.nameIndex).value.key == f.key
    ensures var bytes := PutRepr(cfg, repr, f).value;
            var r := ParseLiteral(cfg, view, bytes + rest, LiteralPrefix(repr.add));
            if ReprSurvives(cfg, repr, f) && (rest != [] || !NeedsMore(repr, f)) then r == Ok(Read(f, |bytes|))
            else r.Err?
  {
    hide Decode, Encode, ParseLiteral, PutString, StringSurvives, Lookup;
    var Literal(add, n, huffman) := repr;
    LiteralBytesRead(cfg, view, f, LiteralFirst(add), LiteralPrefix(add), n, huffman, rest);
  }

  /** One field through both ends: it arrives, and the decoder's table becomes
      the encoder's, exactly when its representation survives. */
  lemma FieldRoundTrip(cfg: Config, opts: Options, view: View, f: Field, rest: Str)
    requires ValidConfig(cfg) && PutRepr(cfg, Choose(cfg, opts, view, f), f).Some?
    ensures var repr := Choose(cfg, opts, view, f);
            var bytes := PutRepr(cfg, repr, f).value;
            var r := ParseStep(cfg, view, bytes + rest);
            && bytes != []
            && if ReprSurvives(cfg, repr, f) && (rest != [] || !NeedsMore(repr, f)) then
                 r == Ok(Step(|bytes|, Some(f), ViewAfter(view, repr, f)))
               else r.Err? || (r.value.field.Some? && r.value.field != Some(f))
  {
    hide Decode, Encode, ParseString, PutString, StringSurvives, Lookup, Huffman.Encode;
    var repr := Choose(cfg, opts, view, f);
    if repr.Indexed? {
      IndexedRoundTrip(cfg, opts, view, f, rest);
    } else {
      FindIsSound(cfg.statics, view, f, opts.tables.AllTables?);
      LiteralRoundTrip(cfg, view, f, repr, rest);
      var first, prefix := LiteralFirst(repr.add), LiteralPrefix(repr.add);
      FirstByte(first, repr.nameIndex, prefix);
      var bytes := PutRepr(cfg, repr, f).value;
      assert (bytes + rest)[0] == Encode(first, repr.nameIndex, prefix)[0];
    }
  }

  /** A surviving representation is never refused by the encoder. */
  lemma SurvivingIsEncoded(cfg: Config, repr: Repr, f: Field)
    requires |cfg.codes| == 256 && ReprSurvives(cfg, repr, f)
    ensures PutRepr(cfg, repr, f).Some?
  {
    match repr
    case Indexed(i) => ShortEnough(0x80, i, 7);
    case Literal(add, n, huffman) =>
      ShortEnough(LiteralFirst(add), n, LiteralPrefix(add));
      if n == 0 {
        ShortEnough(if huffman then 0x80 else 0x00, |Payload(cfg, f.key, huffman)|, 7);
      }
      ShortEnough(if huffman then 0x80 else 0x00, |Payload(cfg, f.value, huffman)|, 7);
  }

  // ----- blocks

  /** The header lists that survive: every field in its representation, and
      the last one not an empty literal. */
  ghost predicate BlockSurvives(cfg: Config, opts: Options, view: View, fields: seq<Field>)
    requires |cfg.codes| == 256
    decreases |fields|
  {
    fields != [] ==>
      var repr := Choose(cfg, opts, view, fields[0]);
      && ReprSurvives(cfg, repr, fields[0])
      && (|fields| == 1 ==> !NeedsMore(repr, fields[0]))
      && BlockSurvives(cfg, opts, ViewAfter(view, repr, fields[0]), fields[1..])
  }

  lemma {:induction false} EncodeAppends(cfg: Config, opts: Options, view: View, fields: seq<Field>, done: Str)
    requires |cfg.codes| == 256
    ensures var all := EncodeFrom(cfg, opts, view, fields, done);
            var own := EncodeBlock(cfg, opts, view, fields);
            && all.view == own.view
            && (all.bytes.Some? <==> own.bytes.Some?)
            && (own.bytes.Some? ==> all.bytes.value == done + own.bytes.value)
    decreases |fields|
  {
    hide Choose, PutRepr, ViewAfter;
    if fields == [] {
      assert done + [] == done;
    } else {
      var repr := Choose(cfg, opts, view, fields[0]);
      var bytes := PutRepr(cfg, repr, fields[0]);
      if bytes.Some? {
        var after := ViewAfter(view, repr, fields[0]);
        EncodeAppends(cfg, opts, after, fields[1..], done + bytes.value);
        EncodeAppends(cfg, opts, after, fields[1..], [] + bytes.value);
        if EncodeBlock(cfg, opts, after, fields[1..]).bytes.Some? {
          var tail := EncodeBlock(cfg, opts, after, fields[1..]).bytes.value;
          assert done + bytes.value + tail == done + ([] + bytes.value + tail);
        }
      }
    }
  }

  /** The block of a non-empty list: the first field, then the block of the rest. */
  lemma EncodeHead(cfg: Config, opts: Options, view: View, fields: seq<Field>)
    requires |cfg.codes| == 256 && fields != []
    requires PutRepr(cfg, Choose(cfg, opts, view, fields[0]), fields[0]).Some?
    ensures var repr := Choose(cfg, opts, view, fields[0]);
            var head := PutRepr(cfg, repr, fields[0]).value;
            var tail := EncodeBlock(cfg, opts, ViewAfter(view, repr, fields[0]), fields[1..]);
            var all := EncodeBlock(cfg, opts, view, fields);
            && all.view == tail.view
            && (all.bytes.Some? <==> tail.bytes.Some?)
            && (tail.bytes.Some? ==> all.bytes.value == head + tail.bytes.value)
  {
    var repr := Choose(cfg, opts, view, fields[0]);
    var head := PutRepr(cfg, repr, fields[0]).value;
    assert [] + head == head;
    EncodeAppends(cfg, opts, ViewAfter(view, repr, fields[0]), fields[1..], head);
  }

  /** Fields already read stay at the front of the result. */
  lemma {:induction false} DecodeKeeps(cfg: Config, view: View, data: Str, fields: seq<Field>)
    requires cfg.tree.Node?
    ensures var r := DecodeFrom(cfg, view, data, fields).result; r.Ok? ==> fields <= r.value
    decreases |data|
  {
    if data != [] {
      var r := ParseStep(cfg, view, data);
      if r.Ok? {
        var fields' := if r.value.field.Some? then fields + [r.value.field.value] else fields;
        DecodeKeeps(cfg, r.value.view, data[r.value.used..], fields');
      }
    }
  }

  lemma EmptyBlockOnly(cfg: Config, opts: Options, view: View, fields: seq<Field>)
    requires ValidConfig(cfg) && EncodeBlock(cfg, opts, view, fields).bytes.Some?
    ensures EncodeBlock(cfg, opts, view, fields).bytes.value == [] <==> fields == []
  {
    if fields != [] {
      FieldRoundTrip(cfg, opts, view, fields[0], []);
      EncodeHead(cfg, opts, view, fields);
    }
  }

  /** Decoding goes on behind `read` and gives exactly the rest of the list,
      with equal tables, if and only if the rest survives. */
  lemma {:induction false} BlockRoundTripFrom(cfg: Config, opts: Options, view: View, fields: seq<Field>,
                                              read: seq<Field>)
    requires ValidConfig(cfg)
    ensures var sent := EncodeBlock(cfg, opts, view, fields);
            BlockSurvives(cfg, opts, view, fields) ==>
              && sent.bytes.Some?
              && DecodeFrom(cfg, view, sent.bytes.value, read) == Outcome(Ok(read + fields), sent.view)
    ensures var sent := EncodeBlock(cfg, opts, view, fields);
            !BlockSurvives(cfg, opts, view, fields) && sent.bytes.Some? ==>
              DecodeFrom(cfg, view, sent.bytes.value, read).result != Ok(read + fields)
    decreases |fields|
  {
    if fields == [] {
      assert read + fields == read;
    } else {
      var repr := Choose(cfg, opts, view, fields[0]);
      if ReprSurvives(cfg, repr, fields[0]) {
        SurvivingIsEncoded(cfg, repr, fields[0]);
      }
      if PutRepr(cfg, repr, fields[0]).Some? {
        EncodeHead(cfg, opts, view, fields);
        var after := ViewAfter(view, repr, fields[0]);
        BlockRoundTripFrom(cfg, opts, after, fields[1..], read + [fields[0]]);
        if EncodeBlock(cfg, opts, after, fields[1..]).bytes.Some? {
          HeadThenTail(cfg, opts, view, fields, read);
        }
      }
    }
  }

  lemma HeadThenTail(cfg: Config, opts: Options, view: View, fields: seq<Field>, read: seq<Field>)
    requires ValidConfig(cfg) && fields != []
    requires EncodeBlock(cfg, opts, view, fields).bytes.Some?
    ensures var repr := Choose(cfg, opts, view, fields[0]);
            var after := ViewAfter(view, repr, fields[0]);
            var tail := EncodeBlock(cfg, opts, after, fields[1..]);
            var data := EncodeBlock(cfg, opts, view, fields).bytes.value;
            && tail.bytes.Some?
            && read + fields == read + [fields[0]] + fields[1..]
            && if ReprSurvives(cfg, repr, fields[0]) && (|fields| > 1 || !NeedsMore(repr, fields[0])) then
                 DecodeFrom(cfg, view, data, read) == DecodeFrom(cfg, after, tail.bytes.value, read + [fields[0]])
               else DecodeFrom(cfg, view, data, read).result != Ok(read + fields)
  {
    hide Choose, PutRepr, ViewAfter, ParseStep, ReprSurvives, NeedsMore;
    var f := fields[0];
    var repr := Choose(cfg, opts, view, f);
    var after := ViewAfter(view, repr, f);
    EncodeHead(cfg, opts, view, fields);
    var head := PutRepr(cfg, repr, f).value;
    var tail := EncodeBlock(cfg, opts, after, fields[1..]).bytes.value;
    EmptyBlockOnly(cfg, opts, after, fields[1..]);
    FieldRoundTrip(cfg, opts, view, f, tail);
    var data := head + tail;
    assert data[|head|..] == tail;
    assert read + fields == read + [f] + fields[1..];
    var r := ParseStep(cfg, view, data);
    if r.Ok? && r.value.field != Some(f) {
      WrongField(cfg, view, data, fields, read);
    }
  }

  /** A wrong or missing field at the front cannot be made up for. */
  lemma WrongField(cfg: Config, view: View, data: Str, fields: seq<Field>, read: seq<Field>)
    requires cfg.tree.Node? && fields != [] && data != []
    requires ParseStep(cfg, view, data).Ok?
    requires ParseStep(cfg, view, data).value.field.Some?
    requires ParseStep(cfg, view, data).value.field != Some(fields[0])
    ensures DecodeFrom(cfg, view, data, read).result != Ok(read + fields)
  {
    var step := ParseStep(cfg, view, data).value;
    var g := step.field.value;
    DecodeKeeps(cfg, step.view, data[step.used..], read + [g]);
    assert (read + [g])[|read|] == g && (read + fields)[|read|] == fields[0];
  }

  /** Sections 6.1 to 6.2.3 of RFC 7541: for every option, table and header
      list, decompressing the compressed block gives the list back if and only
      if the list survives; and then both tables are equal. */
  lemma BlockRoundTrip(cfg: Config, opts: Options, view: View, fields: seq<Field>)
    requires ValidConfig(cfg)
    ensures var sent := EncodeBlock(cfg, opts, view, fields);
            (sent.bytes.Some? && DecodeBlock(cfg, view, sent.bytes.value).result == Ok(fields))
            <==> BlockSurvives(cfg, opts, view, fields)
    ensures var sent := EncodeBlock(cfg, opts, view, fields);
            BlockSurvives(cfg, opts, view, fields) ==>
              DecodeBlock(cfg, view, sent.bytes.value) == Outcome(Ok(fields), sent.view)
  {
    BlockRoundTripFrom(cfg, opts, view, fields, []);
    assert [] + fields == fields;
  }

  // ----- two lists that do not survive

  /** The header list ("a", ""), sent as a literal, ends in an empty string
      with nothing behind it, and the decoder asks for one more byte. */
  lemma EmptyValueIsRefused(cfg: Config, view: View)
    requires ValidConfig(cfg)
    ensures var opts := Options(Never, NoTables, AddNone);
            var sent := EncodeBlock(cfg, opts, view, [Entry(['a' as int], [])]);
            && sent.bytes.Some?
            && DecodeBlock(cfg, view, sent.bytes.value).result.Err?
  {
    var opts := Options(Never, NoTables, AddNone);
    var f := Entry(['a' as int], []);
    var repr := Choose(cfg, opts, view, f);
    SurvivingIsEncoded(cfg, repr, f);
    EncodeHead(cfg, opts, view, [f]);
    FieldRoundTrip(cfg, opts, view, f, []);
    assert [f][1..] == [];
    var bytes := PutRepr(cfg, repr, f).value;
    assert bytes + [] == bytes;
    LiteralRoundTrip(cfg, view, f, repr, []);
    FirstByte(0x10, 0, 4);
  }

  /** A field whose value goes on behind the only static value of its key, such
      as ("accept-encoding", "gzip, deflate, br"), arrives with the static value. */
  lemma LongerValueIsCutOff(cfg: Config, opts: Options, view: View, f: Field, i: nat)
    requires ValidConfig(cfg) && !opts.tables.NoTables? && i < |cfg.statics| && Representable(i + 1, 7)
    requires cfg.statics[i].key == f.key && cfg.statics[i].value.Some? && cfg.statics[i].value.value < f.value
    requires forall j | 0 <= j < |cfg.statics| && j != i :: cfg.statics[j].key != f.key
    ensures var sent := EncodeBlock(cfg, opts, view, [f]);
            && sent.bytes.Some?
            && DecodeBlock(cfg, view, sent.bytes.value)
               == Outcome(Ok([Entry(f.key, cfg.statics[i].value.value)]), view)
  {
    FindIsSound(cfg.statics, view, f, opts.tables.AllTables?);
    StaticIsSound(cfg.statics, f);
    assert LosesValue(cfg.statics, f);
    var repr := Choose(cfg, opts, view, f);
    assert repr == Indexed(i + 1);
    ShortEnough(0x80, i + 1, 7);
    var bytes := Encode(0x80, i + 1, 7);
    EncodeHead(cfg, opts, view, [f]);
    assert [f][1..] == [] && bytes + [] == bytes;
    RoundTrip(0x80, i + 1, 7, []);
    FirstByte(0x80, i + 1, 7);
    var g := Entry(f.key, cfg.statics[i].value.value);
    assert ParseStep(cfg, view, bytes) == Ok(Step(|bytes|, Some(g), view));
    assert bytes[|bytes|..] == [] && [] + [g] == [g];
    var sent := EncodeBlock(cfg, opts, view, [f]);
    assert sent.bytes == Some(bytes) && sent.view == view;
    assert DecodeFrom(cfg, view, [], [g]) == Outcome(Ok([g]), view);
  }

  // ----- size updates

  /** Section 6.3 of RFC 7541: a size update in front of anything resizes the
      table and carries no field; a size that no integer decoder reads back
      ends the block with the table as it was. */
  lemma SizeUpdateResizes(cfg: Config, view: View, n: nat, rest: Str, fields: seq<Field>)
    requires ValidConfig(cfg)
    ensures DecodeFrom(cfg, view, Encode(0x20, n, 5) + rest, fields)
         == if Representable(n, 5) then DecodeFrom(cfg, view.Resize(n), rest, fields) else Outcome(Err(Undefined), view)
  {
    hide Decode, Encode, Representable;
    var update := Encode(0x20, n, 5);
    var data := update + rest;
    RoundTrip(0x20, n, 5, rest);
    FirstByte(0x20, n, 5);
    assert data[0] == update[0] && data[|update|..] == rest;
  }

  // ----- connections

  /** What happens on a connection: a header block, a new maximum table size
      applied to both ends, or a block behind a size update: the sender resizes
      its table and says so on the wire only. */
  datatype Event =
    | Block(opts: Options, fields: seq<Field>)
    | TableSize(maxBytes: nat)
    | Announced(maxBytes: nat, opts: Options, fields: seq<Field>)

  function Behind(maxBytes: nat, bytes: Option<Str>): Option<Str> {
    match bytes
    case None => None
    case Some(block) => Some(Encode(0x20, maxBytes, 5) + block)
  }

  /** The block of an event, if it has one, and the sender's table behind it. */
  function Send(cfg: Config, sender: View, event: Event): Encoded
    requires |cfg.codes| == 256 && !event.TableSize?
  {
    match event
    case Block(opts, fields) => EncodeBlock(cfg, opts, sender, fields)
    case Announced(n, opts, fields) =>
      var sent := EncodeBlock(cfg, opts, sender.Resize(n), fields);
      Encoded(Behind(n, sent.bytes), sent.view)
  }

  ghost predicate EventSurvives(cfg: Config, sender: View, event: Event)
    requires |cfg.codes| == 256 && !event.TableSize?
  {
    match event
    case Block(opts, fields) => BlockSurvives(cfg, opts, sender, fields)
    case Announced(n, opts, fields) => Representable(n, 5) && BlockSurvives(cfg, opts, sender.Resize(n), fields)
  }

  lemma EventRoundTrip(cfg: Config, view: View, event: Event)
    requires ValidConfig(cfg) && !event.TableSize?
    ensures var sent := Send(cfg, view, event);
            && ((sent.bytes.Some? && DecodeBlock(cfg, view, sent.bytes.value).result == Ok(event.fields))
                <==> EventSurvives(cfg, view, event))
            && (EventSurvives(cfg, view, event) ==>
                  DecodeBlock(cfg, view, sent.bytes.value) == Outcome(Ok(event.fields), sent.view))
  {
    hide EncodeBlock, DecodeFrom, BlockSurvives, Encode;
    match event
    case Block(opts, fields) => BlockRoundTrip(cfg, opts, view, fields);
    case Announced(n, opts, fields) =>
      BlockRoundTrip(cfg, opts, view.Resize(n), fields);
      var sent := EncodeBlock(cfg, opts, view.Resize(n), fields);
      if sent.bytes.Some? {
        SizeUpdateResizes(cfg, view, n, sent.bytes.value, []);
      }
  }

  /** Every block of the run arrives as it was sent, with `sender` and
      `receiver` each keeping their own table. */
  ghost predicate Delivers(cfg: Config, sender: View, receiver: View, events: seq<Event>)
    requires ValidConfig(cfg)
    decreases |events|
  {
    events != [] ==>
      match events[0]
      case TableSize(n) => Delivers(cfg, sender.Resize(n), receiver.Resize(n), events[1..])
      case event =>
        var sent := Send(cfg, sender, event);
        && sent.bytes.Some?
        && var got := DecodeBlock(cfg, receiver, sent.bytes.value);
        && got.result == Ok(event.fields)
        && Delivers(cfg, sent.view, got.view, events[1..])
  }

  ghost function SenderAfter(cfg: Config, sender: View, events: seq<Event>): View
    requires |cfg.codes| == 256
    decreases |events|
  {
    if events == [] then sender
    else
      match events[0]
      case TableSize(n) => SenderAfter(cfg, sender.Resize(n), events[1..])
      case event => SenderAfter(cfg, Send(cfg, sender, event).view, events[1..])
  }

  ghost function ReceiverAfter(cfg: Config, sender: View, receiver: View, events: seq<Event>): View
    requires ValidConfig(cfg)
    decreases |events|
  {
    if events == [] then receiver
    else
      match events[0]
      case TableSize(n) => ReceiverAfter(cfg, sender.Resize(n), receiver.Resize(n), events[1..])
      case event =>
        var sent := Send(cfg, sender, event);
        if sent.bytes.None? then receiver
        else ReceiverAfter(cfg, sent.view, DecodeBlock(cfg, receiver, sent.bytes.value).view, events[1..])
  }

  /** Every header list of the run survives, judged by the sender's table alone. */
  ghost predicate RunSurvives(cfg: Config, sender: View, events: seq<Event>)
    requires |cfg.codes| == 256
    decreases |events|
  {
    events != [] ==>
      match events[0]
      case TableSize(n) => RunSurvives(cfg, sender.Resize(n), events[1..])
      case event =>
        && EventSurvives(cfg, sender, event)
        && RunSurvives(cfg, Send(cfg, sender, event).view, events[1..])
  }

  /** The lockstep of a whole connection: from equal tables, every block
      arrives as sent if and only if every header list survives; and then the
      tables are equal at the end. */
  lemma {:induction false} ConnectionRoundTrip(cfg: Config, view: View, events: seq<Event>)
    requires ValidConfig(cfg)
    ensures Delivers(cfg, view, view, events) <==> RunSurvives(cfg, view, events)
    ensures RunSurvives(cfg, view, events) ==>
              ReceiverAfter(cfg, view, view, events) == SenderAfter(cfg, view, events)
    decreases |events|
  {
    hide Send, DecodeBlock, EventSurvives;
    if events != [] {
      match events[0]
      case TableSize(n) =>
        ConnectionRoundTrip(cfg, view.Resize(n), events[1..]);
      case event =>
        EventRoundTrip(cfg, view, event);
        ConnectionRoundTrip(cfg, Send(cfg, view, event).view, events[1..]);
    }
  }
}
