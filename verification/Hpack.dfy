/** The HPACK compressor and decompressor as they run: positions that advance,
    buffers that fill, and a table that is updated in place
    (src/http/hpack.c). Each method is tied to the meaning of its bytes in
    HpackCodec. */
module Hpack {
  import opened Wrappers
  import opened Buffers
  import opened PrefixInteger
  import opened CyclicTable
  import opened HpackTable
  import opened HpackLookup
  import opened HpackCodec
  import Huffman

  // ----- decompression

  method EntryAt(statics: StaticTable, state: TableState, index: nat) returns (r: Option<StaticEntry>)
    requires state.Valid()
    ensures r == Lookup(statics, state.Abstract(), index)
  {
    if index == 0 {
      return None;
    }
    if index <= |statics| {
      return Some(statics[index - 1]);
    }
    var dynamicIndex := index - |statics| - 1;
    var size := state.table.Size();
    if size <= dynamicIndex {
      return None;
    }
    var entry := state.table.At(dynamicIndex);
    assert entry.Some?;
    return Some(StaticEntry(entry.value.key, Some(entry.value.value)));
  }

  method ParseStringAt(cfg: Config, data: Str, pos: nat) returns (r: Result<Str>, end: nat)
    requires cfg.tree.Node? && pos <= |data|
    ensures r.Err? ==> ParseString(cfg, data[pos..]) == Err(r.fault)
    ensures r.Ok? ==> pos < end <= |data| && ParseString(cfg, data[pos..]) == Ok(Read(r.value, end - pos))
  {
    hide Decode, Huffman.Decode;
    end := pos;
    if pos >= |data| {
      return Err(Truncated), end;
    }
    var isHuffman := data[pos] >= 0x80;
    var length;
    length, end := DecodeAt(data, pos, 7);
    if length.Err? {
      return Err(length.fault), end;
    }
    if end >= |data| {
      return Err(Truncated), end;
    }
    if length.value == 0 {
      return Ok([]), end;
    }
    if end + length.value > |data| {
      return Err(Truncated), end;
    }
    var raw := data[end..end + length.value];
    assert raw == data[pos..][end - pos..end - pos + length.value];
    end := end + length.value;
    if isHuffman {
      r := Huffman.DecodeBytes(cfg.tree, raw);
    } else {
      r := Ok(raw);
    }
  }

  method ParseNameAt(cfg: Config, state: TableState, data: Str, pos: nat, index: nat, ghost start: nat)
    returns (r: Result<Str>, end: nat)
    requires cfg.tree.Node? && state.Valid() && start <= pos <= |data|
    ensures r.Err? ==> ParseName(cfg, state.Abstract(), data[start..], index, pos - start) == Err(r.fault)
    ensures r.Ok? ==>
              && pos <= end <= |data|
              && ParseName(cfg, state.Abstract(), data[start..], index, pos - start) == Ok(Read(r.value, end - start))
  {
    hide ParseString, Lookup;
    end := pos;
    if index == 0 {
      assert data[start..][pos - start..] == data[pos..];
      r, end := ParseStringAt(cfg, data, pos);
    } else {
      var entry := EntryAt(cfg.statics, state, index);
      r := if entry.None? then Err(Malformed) else Ok(entry.value.key);
    }
  }

  method ParseLiteralAt(cfg: Config, state: TableState, data: Str, pos: nat, prefix: nat)
    returns (r: Result<Field>, end: nat)
    requires cfg.tree.Node? && state.Valid() && pos < |data| && IsPrefix(prefix)
    ensures r.Err? ==> ParseLiteral(cfg, state.Abstract(), data[pos..], prefix) == Err(r.fault)
    ensures r.Ok? ==>
              && pos < end <= |data|
              && ParseLiteral(cfg, state.Abstract(), data[pos..], prefix) == Ok(Read(r.value, end - pos))
  {
    hide Decode, ParseString, ParseName;
    var index;
    index, end := DecodeAt(data, pos, prefix);
    if index.Err? {
      return Err(index.fault), end;
    }
    var name;
    name, end := ParseNameAt(cfg, state, data, end, index.value, pos);
    if name.Err? {
      return Err(name.fault), end;
    }
    if end >= |data| {
      return Err(Truncated), end;
    }
    assert data[pos..][end - pos..] == data[end..];
    var text;
    text, end := ParseStringAt(cfg, data, end);
    if text.Err? {
      return Err(text.fault), end;
    }
    r := Ok(Entry(name.value, text.value));
  }

  method ParseIndexedAt(cfg: Config, state: TableState, data: Str, pos: nat) returns (r: Result<Field>, end: nat)
    requires state.Valid() && pos < |data|
    ensures r.Err? ==> ParseIndexed(cfg, state.Abstract(), data[pos..]) == Err(r.fault)
    ensures r.Ok? ==>
              && pos < end <= |data|
              && ParseIndexed(cfg, state.Abstract(), data[pos..]) == Ok(Read(r.value, end - pos))
  {
    hide Decode, Lookup;
    var index;
    index, end := DecodeAt(data, pos, 7);
    if index.Err? {
      return Err(index.fault), end;
    }
    var entry := EntryAt(cfg.statics, state, index.value);
    if entry.None? {
      return Err(Malformed), end;
    }
    if entry.value.value.None? {
      return if cfg.strict then Err(Malformed) else Ok(Entry(entry.value.key, [])), end;
    }
    r := Ok(Entry(entry.value.key, entry.value.value.value));
  }

  /** One representation; an error leaves the table as it was. */
  method StepAt(cfg: Config, state: TableState, data: Str, pos: nat, headers: seq<Field>)
    returns (r: Result<seq<Field>>, end: nat)
    requires cfg.tree.Node? && state.Valid() && pos < |data|
    modifies state, state.table, state.table.entries
    ensures state.Valid() && (state.table.entries == old(state.table.entries) || fresh(state.table.entries))
    ensures var step := ParseStep(cfg, old(state.Abstract()), data[pos..]);
            if r.Err? then step == Err(r.fault) && state.Abstract() == old(state.Abstract())
            else
              && pos < end <= |data|
              && step.Ok? && step.value.used == end - pos && step.value.view == state.Abstract()
              && r.value == if step.value.field.Some? then headers + [step.value.field.value] else headers
  {
    hide Decode, ParseLiteral, ParseIndexed;
    var first := data[pos];
    var field: Result<Field>;
    if first >= 0x80 {
      field, end := ParseIndexedAt(cfg, state, data, pos);
    } else if first >= 0x40 {
      field, end := ParseLiteralAt(cfg, state, data, pos, 6);
      if field.Ok? {
        state.Insert(field.value);
      }
    } else if first >= 0x20 {
      var size;
      size, end := DecodeAt(data, pos, 5);
      if size.Err? {
        return Err(size.fault), end;
      }
      state.Resize(size.value);
      return Ok(headers), end;
    } else {
      field, end := ParseLiteralAt(cfg, state, data, pos, 4);
    }
    r := if field.Err? then Err(field.fault) else Ok(headers + [field.value]);
  }

  method Decompress(cfg: Config, state: TableState, data: Str) returns (r: Result<seq<Field>>)
    requires cfg.tree.Node? && state.Valid()
    modifies state, state.table, state.table.entries
    ensures state.Valid() && (state.table.entries == old(state.table.entries) || fresh(state.table.entries))
    ensures Outcome(r, state.Abstract()) == DecodeBlock(cfg, old(state.Abstract()), data)
  {
    hide ParseStep;
    var pos := 0;
    r := Ok([]);
    assert data[0..] == data;
    while pos < |data|
      invariant 0 <= pos <= |data| && r.Ok?
      invariant state.Valid() && (state.table.entries == old(state.table.entries) || fresh(state.table.entries))
      invariant DecodeBlock(cfg, old(state.Abstract()), data)
             == DecodeFrom(cfg, state.Abstract(), data[pos..], r.value)
      decreases |data| - pos
    {
      ghost var before, headers, from := state.Abstract(), r.value, pos;
      r, pos := StepAt(cfg, state, data, pos, r.value);
      if r.Err? {
        return;
      }
      assert data[from..][pos - from..] == data[pos..];
    }
  }

  // ----- compression

  /** Strings and tables of a size that memory can hold. */
  ghost predicate InMemory(cfg: Config, f: Field)
    requires |cfg.codes| == 256
  {
    && |f.key| < UINT64_LIMIT / 2 && |f.value| < UINT64_LIMIT / 2
    && HuffmanSize(cfg, f.key) < UINT64_LIMIT / 2 && HuffmanSize(cfg, f.value) < UINT64_LIMIT / 2
  }

  /** Write a string literal at `at`: its length behind the Huffman bit, then its payload. */
  method PutStringAt(cfg: Config, out: array<byte>, at: nat, s: Str, huffman: bool) returns (n: nat)
    requires Huffman.ValidMap(cfg.codes) && |Payload(cfg, s, huffman)| < UINT64_LIMIT / 2
    requires at + MAX_INTEGER_SIZE + |Payload(cfg, s, huffman)| <= out.Length
    modifies out
    ensures n <= MAX_INTEGER_SIZE + |Payload(cfg, s, huffman)|
    ensures PutString(cfg, s, huffman).Some? && n == |PutString(cfg, s, huffman).value|
    ensures Wrote(out, old(out[..]), at, PutString(cfg, s, huffman).value, n)
  {
    ghost var before := out[..];
    ghost var payload := Payload(cfg, s, huffman);
    var size := if huffman then 0 else |s|;
    if huffman {
      size := Huffman.EncodedSize(cfg.codes, s);
    }
    var first: byte := if huffman then 0x80 else 0x00;
    ghost var length := Encode(first, size, 7);
    ShortEnough(first, size, 7);
    n := PutLengthAt(out, at, first, size);
    ghost var between := out[..];
    PutPayloadAt(cfg, out, at + n, s, huffman, size);
    WroteMore(out, before, between, at, length, payload);
    n := n + size;
  }

  method PutLengthAt(out: array<byte>, at: nat, first: byte, size: nat) returns (n: nat)
    requires HasRoom(first, 7) && size < UINT64_LIMIT / 2 && at + MAX_INTEGER_SIZE <= out.Length
    modifies out
    ensures n == |Encode(first, size, 7)| <= MAX_INTEGER_SIZE
    ensures Wrote(out, old(out[..]), at, Encode(first, size, 7), n)
  {
    hide Encode;
    ghost var before := out[..];
    ShortEnough(first, size, 7);
    out[at] := first;
    n := EncodeAt(out, at, size, 7);
  }

  method PutPayloadAt(cfg: Config, out: array<byte>, at: nat, s: Str, huffman: bool, size: nat)
    requires Huffman.ValidMap(cfg.codes) && size == |Payload(cfg, s, huffman)| && at + size <= out.Length
    modifies out
    ensures Wrote(out, old(out[..]), at, Payload(cfg, s, huffman), size)
  {
    hide Huffman.Encode;
    if huffman {
      var written := Huffman.EncodeInto(cfg.codes, out, at, size, s);
      assert written == Some(size);
    } else {
      CopyInto(out, at, s);
    }
  }

  /** Write a string literal behind what the buffer holds up to `i`. */
  method AppendString(cfg: Config, out: array<byte>, i: nat, s: Str, huffman: bool, ghost filled: Str)
    returns (i': nat)
    requires Huffman.ValidMap(cfg.codes) && |Payload(cfg, s, huffman)| < UINT64_LIMIT / 2
    requires i + MAX_INTEGER_SIZE + |Payload(cfg, s, huffman)| <= out.Length && out[..i] == filled
    modifies out
    ensures i <= i' <= i + MAX_INTEGER_SIZE + |Payload(cfg, s, huffman)|
    ensures PutString(cfg, s, huffman).Some?
    ensures out[..i'] == filled + PutString(cfg, s, huffman).value
  {
    hide PutString, Payload;
    ghost var before := out[..];
    var n := PutStringAt(cfg, out, i, s, huffman);
    FilledFurther(out, before, i, PutString(cfg, s, huffman).value);
    i' := i + n;
  }

  /** A literal field in its own buffer, which is cut to what was written. */
  method EncodeLiteral(cfg: Config, f: Field, add: bool, n: nat, huffman: bool) returns (bytes: Str)
    requires Huffman.ValidMap(cfg.codes) && InMemory(cfg, f) && n < UINT64_LIMIT / 2
    ensures PutRepr(cfg, Literal(add, n, huffman), f) == Some(bytes)
  {
    hide Encode, PutString, Huffman.Encode;
    var first := LiteralFirst(add);
    ShortEnough(first, n, LiteralPrefix(add));
    var sizeKey, sizeValue := |f.key|, |f.value|;
    if huffman {
      sizeKey := Huffman.EncodedSize(cfg.codes, f.key);
      sizeValue := Huffman.EncodedSize(cfg.codes, f.value);
    }
    if n == 0 {
      bytes := EncodeWithName(cfg, f, first, LiteralPrefix(add), huffman, sizeKey, sizeValue);
    } else {
      bytes := EncodeWithIndex(cfg, f, first, LiteralPrefix(add), n, huffman, sizeValue);
    }
  }

  method EncodeWithIndex(cfg: Config, f: Field, first: byte, prefix: nat, n: nat, huffman: bool, sizeValue: nat)
    returns (bytes: Str)
    requires Huffman.ValidMap(cfg.codes) && HasRoom(first, prefix) && n < UINT64_LIMIT / 2
    requires sizeValue == |Payload(cfg, f.value, huffman)| < UINT64_LIMIT / 2
    ensures PutString(cfg, f.value, huffman).Some?
    ensures bytes == Encode(first, n, prefix) + [] + PutString(cfg, f.value, huffman).value
  {
    hide Encode, PutString, Payload;
    ghost var index := Encode(first, n, prefix);
    var buffer := new byte[1 + MAX_INTEGER_SIZE + MAX_INTEGER_SIZE + sizeValue];
    var i := PutIndexAt(buffer, first, n, prefix);
    assert index + [] == index;
    i := AppendString(cfg, buffer, i, f.value, huffman, index + []);
    bytes := buffer[..i];
  }

  method EncodeWithName(cfg: Config, f: Field, first: byte, prefix: nat, huffman: bool, sizeKey: nat, sizeValue: nat)
    returns (bytes: Str)
    requires Huffman.ValidMap(cfg.codes) && HasRoom(first, prefix)
    requires sizeKey == |Payload(cfg, f.key, huffman)| < UINT64_LIMIT / 2
    requires sizeValue == |Payload(cfg, f.value, huffman)| < UINT64_LIMIT / 2
    ensures PutString(cfg, f.key, huffman).Some? && PutString(cfg, f.value, huffman).Some?
    ensures bytes
         == Encode(first, 0, prefix) + PutString(cfg, f.key, huffman).value + PutString(cfg, f.value, huffman).value
  {
    hide PutString, Payload;
    ghost var index := Encode(first, 0, prefix);
    assert index == [first] by { FirstByte(first, 0, prefix); }
    var buffer := new byte[MAX_INTEGER_SIZE + MAX_INTEGER_SIZE + sizeKey + sizeValue + 1];
    buffer[0] := first;
    assert buffer[..1] == index;
    var i := AppendString(cfg, buffer, 1, f.key, huffman, index);
    i := AppendString(cfg, buffer, i, f.value, huffman, index + PutString(cfg, f.key, huffman).value);
    bytes := buffer[..i];
  }

  method PutIndexAt(out: array<byte>, first: byte, n: nat, prefix: nat) returns (i: nat)
    requires HasRoom(first, prefix) && n < UINT64_LIMIT / 2 && MAX_INTEGER_SIZE <= out.Length
    modifies out
    ensures i == |Encode(first, n, prefix)| <= MAX_INTEGER_SIZE
    ensures out[..i] == Encode(first, n, prefix)
  {
    hide Encode;
    ShortEnough(first, n, prefix);
    out[0] := first;
    i := EncodeAt(out, 0, n, prefix);
  }

  method EncodeField(cfg: Config, state: TableState, opts: Options, f: Field) returns (bytes: Str)
    requires Huffman.ValidMap(cfg.codes) && state.Valid() && InMemory(cfg, f)
    requires |cfg.statics| + |state.table.contents| < UINT64_LIMIT / 2
    modifies state, state.table, state.table.entries
    ensures state.Valid() && (state.table.entries == old(state.table.entries) || fresh(state.table.entries))
    ensures var repr := Choose(cfg, opts, old(state.Abstract()), f);
            && PutRepr(cfg, repr, f) == Some(bytes)
            && state.Abstract() == ViewAfter(old(state.Abstract()), repr, f)
  {
    hide PutRepr, Find, Huffman.Encode;
    var found := NotFound;
    var add := false;
    if !opts.tables.NoTables? {
      found := FindInTables(cfg.statics, state, f, opts.tables.AllTables?);
      FindIsSound(cfg.statics, state.Abstract(), f, opts.tables.AllTables?);
      add := ShouldAdd(cfg, opts.add, f);
    }
    if found.AllFound? {
      bytes := EncodeIndexed(cfg, found.index, f);
      return;
    }
    var n := if found.KeyFound? then found.index else 0;
    var sizeKey := Huffman.EncodedSize(cfg.codes, f.key);
    var sizeValue := Huffman.EncodedSize(cfg.codes, f.value);
    var huffman := if n == 0 then UseHuffman(opts.huffman, sizeKey + sizeValue, |f.key| + |f.value|)
                   else UseHuffman(opts.huffman, sizeValue, |f.value|);
    bytes := EncodeLiteral(cfg, f, add, n, huffman);
    if add {
      state.Insert(f);
    }
  }

  method EncodeIndexed(cfg: Config, index: nat, ghost f: Field) returns (bytes: Str)
    requires |cfg.codes| == 256 && index < UINT64_LIMIT / 2
    ensures PutRepr(cfg, Indexed(index), f) == Some(bytes)
  {
    ShortEnough(0x80, index, 7);
    var buffer := new byte[MAX_INTEGER_SIZE];
    var i := PutIndexAt(buffer, 0x80, index, 7);
    bytes := buffer[..i];
  }

  /** The block of a header list, field by field. */
  method Compress(cfg: Config, state: TableState, opts: Options, fields: seq<Field>) returns (bytes: Str)
    requires Huffman.ValidMap(cfg.codes) && state.Valid()
    requires forall i | 0 <= i < |fields| :: InMemory(cfg, fields[i])
    requires |cfg.statics| + state.maxBytes / 32 < UINT64_LIMIT / 2
    modifies state, state.table, state.table.entries
    ensures state.Valid() && (state.table.entries == old(state.table.entries) || fresh(state.table.entries))
    ensures Encoded(Some(bytes), state.Abstract()) == EncodeBlock(cfg, opts, old(state.Abstract()), fields)
  {
    hide Choose, PutRepr, ViewAfter, InMemory;
    bytes := [];
    var i := 0;
    assert fields[0..] == fields;
    while i < |fields|
      invariant 0 <= i <= |fields|
      invariant state.Valid() && (state.table.entries == old(state.table.entries) || fresh(state.table.entries))
      invariant state.maxBytes == old(state.maxBytes)
      invariant EncodeBlock(cfg, opts, old(state.Abstract()), fields)
             == EncodeFrom(cfg, opts, state.Abstract(), fields[i..], bytes)
    {
      FewEntries(state.table.contents);
      ghost var before := state.Abstract();
      var single := EncodeField(cfg, state, opts, fields[i]);
      KeepsMax(before, Choose(cfg, opts, before, fields[i]), fields[i]);
      assert fields[i..][1..] == fields[i + 1..];
      bytes := bytes + single;
      i := i + 1;
    }
  }

  lemma KeepsMax(view: View, repr: Repr, f: Field)
    ensures ViewAfter(view, repr, f).maxBytes == view.maxBytes
  {
  }
}
