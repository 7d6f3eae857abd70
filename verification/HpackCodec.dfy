/** Header blocks: what the bytes of a block mean to the decoder, and which
    bytes the encoder chooses (src/http/hpack.c; section 6 of RFC 7541). */
module HpackCodec {
  import opened Wrappers
  import opened PrefixInteger
  import opened HpackTable
  import opened HpackLookup
  import Huffman

  /** The generated tables, and whether a static entry without a value may be
      used as a whole field (`strict` refuses it, as release builds do). */
  datatype Config = Config(
    statics: StaticTable,
    commonKeys: set<Str>,
    strict: bool,
    tree: Huffman.Tree,
    codes: Huffman.EncodeMap)

  ghost predicate ValidConfig(cfg: Config) {
    Huffman.ValidCoding(cfg.tree, cfg.codes)
  }

  // ----- decoding

  /** Something read from the front of the data, and how many bytes it took. */
  datatype Read<T> = Read(item: T, used: nat)

  /** A string literal. Its check for remaining bytes comes before the test
      for length 0, so an empty literal needs a byte behind it. */
  function ParseString(cfg: Config, data: Str): (r: Result<Read<Str>>)
    requires cfg.tree.Node?
    ensures r.Ok? ==> 1 <= r.value.used <= |data|
  {
    if data == [] then Err(Truncated)
    else
      var length :- Decode(data, 7);
      if length.used >= |data| then Err(Truncated)
      else if length.value == 0 then Ok(Read([], length.used))
      else
        var end := length.used + length.value;
        if end > |data| then Err(Truncated)
        else
          var raw := data[length.used..end];
          if data[0] >= 0x80 then
            var text :- Huffman.Decode(cfg.tree, raw);
            Ok(Read(text, end))
          else Ok(Read(raw, end))
  }

  /** The name of a literal field: a string when the index is 0, else the key
      of a table entry. `used` bytes precede it. */
  function ParseName(cfg: Config, view: View, data: Str, index: nat, used: nat): (r: Result<Read<Str>>)
    requires cfg.tree.Node? && used <= |data|
    ensures r.Ok? ==> used <= r.value.used <= |data|
  {
    if index == 0 then
      var name :- ParseString(cfg, data[used..]);
      Ok(Read(name.item, used + name.used))
    else
      match Lookup(cfg.statics, view, index)
      case None => Err(Malformed)
      case Some(entry) => Ok(Read(entry.key, used))
  }

  function ParseLiteral(cfg: Config, view: View, data: Str, prefix: nat): (r: Result<Read<Field>>)
    requires cfg.tree.Node? && data != [] && IsPrefix(prefix)
    ensures r.Ok? ==> 1 <= r.value.used <= |data|
  {
    var index :- Decode(data, prefix);
    var name :- ParseName(cfg, view, data, index.value, index.used);
    if name.used >= |data| then Err(Truncated)
    else
      var text :- ParseString(cfg, data[name.used..]);
      Ok(Read(Entry(name.item, text.item), name.used + text.used))
  }

  function ParseIndexed(cfg: Config, view: View, data: Str): (r: Result<Read<Field>>)
    requires data != []
    ensures r.Ok? ==> 1 <= r.value.used <= |data|
  {
    var index :- Decode(data, 7);
    match Lookup(cfg.statics, view, index.value)
    case None => Err(Malformed)
    case Some(entry) =>
      match entry.value
      case Some(v) => Ok(Read(Entry(entry.key, v), index.used))
      case None => if cfg.strict then Err(Malformed) else Ok(Read(Entry(entry.key, []), index.used))
  }

  /** One representation read: the field it carries, if any, and the table after it. */
  datatype Step = Step(used: nat, field: Option<Field>, view: View)

  function ParseStep(cfg: Config, view: View, data: Str): (r: Result<Step>)
    requires cfg.tree.Node? && data != []
    ensures r.Ok? ==> 1 <= r.value.used <= |data|
  {
    if data[0] >= 0x80 then
      var f :- ParseIndexed(cfg, view, data);
      Ok(Step(f.used, Some(f.item), view))
    else if data[0] >= 0x40 then
      var f :- ParseLiteral(cfg, view, data, 6);
      Ok(Step(f.used, Some(f.item), view.Insert(f.item)))
    else if data[0] >= 0x20 then
      var size :- Decode(data, 5);
      Ok(Step(size.used, None, view.Resize(size.value)))
    else
      var f :- ParseLiteral(cfg, view, data, 4);
      Ok(Step(f.used, Some(f.item), view))
  }

  /** What a block leaves behind: its fields or an error, and the table. */
  datatype Outcome = Outcome(result: Result<seq<Field>>, view: View)

  function DecodeFrom(cfg: Config, view: View, data: Str, fields: seq<Field>): Outcome
    requires cfg.tree.Node?
    decreases |data|
  {
    if data == [] then Outcome(Ok(fields), view)
    else
      match ParseStep(cfg, view, data)
      case Err(fault) => Outcome(Err(fault), view)
      case Ok(step) =>
        var fields' := if step.field.Some? then fields + [step.field.value] else fields;
        DecodeFrom(cfg, step.view, data[step.used..], fields')
  }

  function DecodeBlock(cfg: Config, view: View, data: Str): Outcome
    requires cfg.tree.Node?
  {
    DecodeFrom(cfg, view, data, [])
  }

  // ----- encoding

  datatype HuffmanUsage = Auto | Always | Never
  datatype CompressType = NoTables | StaticTableOnly | AllTables
  datatype AddType = AddNone | AddCommon | AddAll
  datatype Options = Options(huffman: HuffmanUsage, tables: CompressType, add: AddType)

  /** How a field goes on the wire: a whole table entry, or a literal with a
      name from the tables (`nameIndex` 0: with a literal name). */
  datatype Repr = Indexed(index: nat) | Literal(add: bool, nameIndex: nat, huffman: bool)

  predicate IsCommon(cfg: Config, key: Str) {
    key != [] && (key[0] == ':' as int || key in cfg.commonKeys)
  }

  predicate ShouldAdd(cfg: Config, add: AddType, f: Field) {
    match add
    case AddNone => false
    case AddCommon => IsCommon(cfg, f.key)
    case AddAll => true
  }

  function HuffmanSize(cfg: Config, s: Str): nat
    requires |cfg.codes| == 256
  {
    |Huffman.Encode(cfg.codes, s)|
  }

  predicate UseHuffman(usage: HuffmanUsage, coded: nat, plain: nat) {
    match usage
    case Never => false
    case Always => true
    case Auto => coded < plain
  }

  predicate HuffmanForValue(cfg: Config, usage: HuffmanUsage, f: Field)
    requires |cfg.codes| == 256
  {
    UseHuffman(usage, HuffmanSize(cfg, f.value), |f.value|)
  }

  predicate HuffmanForBoth(cfg: Config, usage: HuffmanUsage, f: Field)
    requires |cfg.codes| == 256
  {
    UseHuffman(usage, HuffmanSize(cfg, f.key) + HuffmanSize(cfg, f.value), |f.key| + |f.value|)
  }

  function Choose(cfg: Config, opts: Options, view: View, f: Field): Repr
    requires |cfg.codes| == 256
  {
    if opts.tables.NoTables? then Literal(false, 0, HuffmanForBoth(cfg, opts.huffman, f))
    else
      match Find(cfg.statics, view, f, opts.tables.AllTables?)
      case AllFound(i) => Indexed(i)
      case KeyFound(i) => Literal(ShouldAdd(cfg, opts.add, f), i, HuffmanForValue(cfg, opts.huffman, f))
      case NotFound => Literal(ShouldAdd(cfg, opts.add, f), 0, HuffmanForBoth(cfg, opts.huffman, f))
  }

  /** An integer behind the check that most encoders make on its size. */
  function PutInteger(first: byte, v: nat, prefix: nat, checked: bool): Option<Str>
    requires HasRoom(first, prefix)
  {
    var bytes := Encode(first, v, prefix);
    if checked && |bytes| > MAX_INTEGER_SIZE then None else Some(bytes)
  }

  function Payload(cfg: Config, s: Str, huffman: bool): Str
    requires |cfg.codes| == 256
  {
    if huffman then Huffman.Encode(cfg.codes, s) else s
  }

  function PutString(cfg: Config, s: Str, huffman: bool): (r: Option<Str>)
    requires |cfg.codes| == 256
    ensures r.Some? ==> r.value != []
  {
    var payload := Payload(cfg, s, huffman);
    var length :- PutInteger(if huffman then 0x80 else 0x00, |payload|, 7, !huffman);
    Some(length + payload)
  }

  function LiteralFirst(add: bool): byte {
    if add then 0x40 else 0x10
  }

  function LiteralPrefix(add: bool): nat {
    if add then 6 else 4
  }

  function PutRepr(cfg: Config, repr: Repr, f: Field): Option<Str>
    requires |cfg.codes| == 256
  {
    match repr
    case Indexed(i) => PutInteger(0x80, i, 7, true)
    case Literal(add, n, huffman) =>
      var index :- PutInteger(LiteralFirst(add), n, LiteralPrefix(add), add || !huffman);
      var name :- if n == 0 then PutString(cfg, f.key, huffman) else Some([]);
      var text :- PutString(cfg, f.value, huffman);
      Some(index + name + text)
  }

  function ViewAfter(view: View, repr: Repr, f: Field): View {
    if repr.Literal? && repr.add then view.Insert(f) else view
  }

  /** The bytes of a block, if every field could be encoded, and the table. */
  datatype Encoded = Encoded(bytes: Option<Str>, view: View)

  function EncodeFrom(cfg: Config, opts: Options, view: View, fields: seq<Field>, done: Str): Encoded
    requires |cfg.codes| == 256
    decreases |fields|
  {
    if fields == [] then Encoded(Some(done), view)
    else
      var repr := Choose(cfg, opts, view, fields[0]);
      match PutRepr(cfg, repr, fields[0])
      case None => Encoded(None, view)
      case Some(bytes) =>
        EncodeFrom(cfg, opts, ViewAfter(view, repr, fields[0]), fields[1..], done + bytes)
  }

  function EncodeBlock(cfg: Config, opts: Options, view: View, fields: seq<Field>): Encoded
    requires |cfg.codes| == 256
  {
    EncodeFrom(cfg, opts, view, fields, [])
  }
}
