/** Single representations on the wire (src/http/hpack.c; section 6 of RFC
    7541): which one the encoder writes, what each one means to the decoder,
    and where each one ends. */
module HpackWire {
  import opened Wrappers
  import opened PrefixInteger
  import opened HpackTable
  import opened HpackLookup
  import opened HpackCodec
  import opened HpackRoundTrip
  import Huffman

  // ----- what the encoder writes

  /** The literal that is added to the table, or the one that is never indexed. */
  function LiteralOf(cfg: Config, added: bool, n: nat, f: Field, huffman: bool): Option<Str>
    requires |cfg.codes| == 256
  {
    if added then LiteralBytes(cfg, 0x40, 6, n, f, huffman) else LiteralBytes(cfg, 0x10, 4, n, f, huffman)
  }

  lemma LiteralFirstByte(cfg: Config, added: bool, n: nat, f: Field, huffman: bool)
    requires |cfg.codes| == 256 && LiteralOf(cfg, added, n, f, huffman).Some?
    ensures var bytes := LiteralOf(cfg, added, n, f, huffman).value;
            bytes != [] && if added then 0x40 <= bytes[0] < 0x80 else 0x10 <= bytes[0] < 0x20
  {
    hide Encode, PutString;
    FirstByte(0x40, n, 6);
    FirstByte(0x10, n, 4);
  }

  /** Octets of the literal strings: the value, and the name if it is literal. */
  function PlainSize(f: Field, n: nat): nat {
    |f.value| + (if n == 0 then |f.key| else 0)
  }

  function CodedSize(cfg: Config, f: Field, n: nat): nat
    requires |cfg.codes| == 256
  {
    |Huffman.Encode(cfg.codes, f.value)| + (if n == 0 then |Huffman.Encode(cfg.codes, f.key)| else 0)
  }

  /** A field on its own: the index of a whole match; else a literal that is
      added to the table exactly under the option for its key, with the coded
      strings exactly when they are always asked for, or shorter in all. */
  lemma FieldForm(cfg: Config, opts: Options, view: View, f: Field)
    requires ValidConfig(cfg) && EncodeBlock(cfg, opts, view, [f]).bytes.Some?
    ensures var sent := EncodeBlock(cfg, opts, view, [f]);
            var found := if opts.tables == NoTables then NotFound
                         else Find(cfg.statics, view, f, opts.tables == AllTables);
            if found.AllFound? then sent == Encoded(Some(Encode(0x80, found.index, 7)), view)
            else
              var n := if found.KeyFound? then found.index else 0;
              var common := |f.key| > 0 && (f.key[0] == ':' as int || f.key in cfg.commonKeys);
              var added := opts.tables != NoTables && (opts.add == AddAll || (opts.add == AddCommon && common));
              var huffman := opts.huffman == Always
                             || (opts.huffman == Auto && CodedSize(cfg, f, n) < PlainSize(f, n));
              sent == Encoded(LiteralOf(cfg, added, n, f, huffman), if added then view.Insert(f) else view)
  {
    hide Find, PutRepr, LiteralOf, Encode, Huffman.Encode;
    var repr := Choose(cfg, opts, view, f);
    EncodeHead(cfg, opts, view, [f]);
    var bytes := PutRepr(cfg, repr, f).value;
    assert [f][1..] == [] && bytes + [] == bytes;
    FindIsSound(cfg.statics, view, f, opts.tables == AllTables);
    ReprAsBytes(cfg, repr, f);
  }

  lemma ReprAsBytes(cfg: Config, repr: Repr, f: Field)
    requires |cfg.codes| == 256 && PutRepr(cfg, repr, f).Some?
    ensures repr.Indexed? ==> PutRepr(cfg, repr, f) == Some(Encode(0x80, repr.index, 7))
    ensures repr.Literal? ==> PutRepr(cfg, repr, f) == LiteralOf(cfg, repr.add, repr.nameIndex, f, repr.huffman)
  {
    hide Encode, PutString;
  }

  // ----- what the decoder reads

  /** The three literal forms: with incremental indexing, without indexing, and
      never indexed. */
  predicate IsLiteralForm(first: byte, prefix: nat) {
    (first == 0x40 && prefix == 6) || (first == 0x00 && prefix == 4) || (first == 0x10 && prefix == 4)
  }

  /** Sections 6.2.1 to 6.2.3 of RFC 7541: each form carries its field, and
      only incremental indexing adds it to the table. */
  lemma LiteralFormsRead(cfg: Config, view: View, f: Field, first: byte, prefix: nat, n: nat, huffman: bool, rest: Str)
    requires ValidConfig(cfg) && IsLiteralForm(first, prefix)
    requires n > 0 ==> Searched(cfg.statics, view, true, n) && KeyAt(cfg.statics, view, f, n)
    requires LiteralSurvives(cfg, prefix, n, f, huffman) && (rest != [] || f.value != [])
    ensures LiteralBytes(cfg, first, prefix, n, f, huffman).Some?
    ensures var bytes := LiteralBytes(cfg, first, prefix, n, f, huffman).value;
            ParseStep(cfg, view, bytes + rest)
            == Ok(Step(|bytes|, Some(f), if first == 0x40 then view.Insert(f) else view))
  {
    hide Decode, Encode, ParseLiteral, StringSurvives;
    SurvivingString(cfg, f.value, huffman);
    if n == 0 {
      SurvivingString(cfg, f.key, huffman);
    }
    LiteralBytesRead(cfg, view, f, first, prefix, n, huffman, rest);
    FirstByte(first, n, prefix);
    var bytes := LiteralBytes(cfg, first, prefix, n, f, huffman).value;
    assert (bytes + rest)[0] == Encode(first, n, prefix)[0];
  }

  lemma SurvivingString(cfg: Config, s: Str, huffman: bool)
    requires |cfg.codes| == 256 && StringSurvives(cfg, s, huffman)
    ensures PutString(cfg, s, huffman).Some?
  {
    ShortEnough(if huffman then 0x80 else 0x00, |Payload(cfg, s, huffman)|, 7);
  }

  /** Section 6.1 of RFC 7541: an index means the static entry of that number,
      or the dynamic one behind them; 0, an index beyond both, and, in strict
      builds, an entry without a value are refused. */
  lemma IndexedRead(cfg: Config, view: View, i: nat, rest: Str)
    requires ValidConfig(cfg) && Representable(i, 7)
    ensures var bytes := Encode(0x80, i, 7);
            var r := ParseStep(cfg, view, bytes + rest);
            var s := |cfg.statics|;
            if 1 <= i <= s && cfg.statics[i - 1].value.Some? then
              r == Ok(Step(|bytes|, Some(Entry(cfg.statics[i - 1].key, cfg.statics[i - 1].value.value)), view))
            else if 1 <= i <= s && !cfg.strict then
              r == Ok(Step(|bytes|, Some(Entry(cfg.statics[i - 1].key, [])), view))
            else if s < i <= s + |view.entries| then r == Ok(Step(|bytes|, Some(view.entries[i - s - 1]), view))
            else r.Err?
  {
    hide Decode, Encode;
    RoundTrip(0x80, i, 7, rest);
    FirstByte(0x80, i, 7);
    assert (Encode(0x80, i, 7) + rest)[0] == Encode(0x80, i, 7)[0];
  }

  // ----- where a representation ends

  lemma {:induction false} DigitsExtend(data: Str, more: Str, amount: nat, acc: nat, used: nat)
    ensures DecodeDigits(data, amount, acc, used).Ok? ==>
              DecodeDigits(data + more, amount, acc, used) == DecodeDigits(data, amount, acc, used)
    decreases |data|
  {
    if data != [] && amount < 32 {
      assert (data + more)[1..] == data[1..] + more;
      DigitsExtend(data[1..], more, amount + 7, acc + Shl(data[0] % 0x80, amount), used + 1);
    }
  }

  lemma IntegerExtends(data: Str, more: Str, prefix: nat)
    requires data != [] && IsPrefix(prefix)
    ensures Decode(data, prefix).Ok? ==> Decode(data + more, prefix) == Decode(data, prefix)
  {
    hide DecodeDigits, LowBits;
    assert (data + more)[0] == data[0] && (data + more)[1..] == data[1..] + more;
    DigitsExtend(data[1..], more, 0, LowBits(data[0], prefix), 1);
  }

  lemma StringExtends(cfg: Config, data: Str, more: Str)
    requires cfg.tree.Node?
    ensures ParseString(cfg, data).Ok? ==> ParseString(cfg, data + more) == ParseString(cfg, data)
  {
    hide Decode, Huffman.Decode;
    if data != [] {
      IntegerExtends(data, more, 7);
      var length := Decode(data, 7);
      if length.Ok? && length.value.used + length.value.value <= |data| {
        var from, end := length.value.used, length.value.used + length.value.value;
        assert (data + more)[from..end] == data[from..end];
      }
    }
  }

  lemma NameExtends(cfg: Config, view: View, data: Str, more: Str, index: nat, used: nat)
    requires cfg.tree.Node? && used <= |data|
    ensures ParseName(cfg, view, data, index, used).Ok? ==>
              ParseName(cfg, view, data + more, index, used) == ParseName(cfg, view, data, index, used)
  {
    hide ParseString;
    assert (data + more)[used..] == data[used..] + more;
    StringExtends(cfg, data[used..], more);
  }

  lemma LiteralExtends(cfg: Config, view: View, data: Str, more: Str, prefix: nat)
    requires cfg.tree.Node? && data != [] && IsPrefix(prefix)
    ensures ParseLiteral(cfg, view, data, prefix).Ok? ==>
              ParseLiteral(cfg, view, data + more, prefix) == ParseLiteral(cfg, view, data, prefix)
  {
    hide ParseString, ParseName, Decode;
    IntegerExtends(data, more, prefix);
    var index := Decode(data, prefix);
    if index.Ok? {
      NameExtends(cfg, view, data, more, index.value.value, index.value.used);
      var name := ParseName(cfg, view, data, index.value.value, index.value.used);
      if name.Ok? {
        assert (data + more)[name.value.used..] == data[name.value.used..] + more;
        StringExtends(cfg, data[name.value.used..], more);
      }
    }
  }

  /** What has been read does not depend on what follows. */
  lemma StepExtends(cfg: Config, view: View, data: Str, more: Str)
    requires cfg.tree.Node? && data != []
    ensures ParseStep(cfg, view, data).Ok? ==> ParseStep(cfg, view, data + more) == ParseStep(cfg, view, data)
  {
    hide Decode, ParseLiteral;
    IntegerExtends(data, more, 7);
    IntegerExtends(data, more, 5);
    LiteralExtends(cfg, view, data, more, 6);
    LiteralExtends(cfg, view, data, more, 4);
    assert (data + more)[0] == data[0];
  }

  /** A representation that is cut off anywhere is refused. */
  lemma TruncatedIsRefused(cfg: Config, view: View, data: Str, n: nat)
    requires cfg.tree.Node? && data != [] && ParseStep(cfg, view, data).Ok?
    requires 0 < n < ParseStep(cfg, view, data).value.used
    ensures ParseStep(cfg, view, data[..n]).Err?
  {
    hide ParseStep;
    StepExtends(cfg, view, data[..n], data[n..]);
    assert data[..n] + data[n..] == data;
  }
}
