/** Huffman coding of string literals (src/http/hpack_huffman.c; section 5.2
    and appendix B of RFC 7541), over any tree and encode map that agree. */
module Huffman {
  import opened Wrappers
  import opened PrefixInteger
  import opened Buffers
  import opened Bits

  datatype Tree = Node(zero: Tree, one: Tree) | End(value: byte) | Error

  /** A code of `bitSize` bits; its first bit is the lowest bit of `value`. */
  datatype EncodeEntry = EncodeEntry(value: nat, bitSize: nat)

  type EncodeMap = seq<EncodeEntry>

  const MIN_BITS_PER_CHAR: nat := 5
  const MAX_BITS_PER_CHAR: nat := 30

  function LowFirst(value: nat, n: nat): (bits: seq<bool>)
    ensures |bits| == n
  {
    if n == 0 then [] else [value % 2 == 1] + LowFirst(value / 2, n - 1)
  }

  ghost predicate ValidMap(codes: EncodeMap) {
    && |codes| == 256
    && forall c | 0 <= c < 256 :: MIN_BITS_PER_CHAR <= codes[c].bitSize <= MAX_BITS_PER_CHAR
  }

  function Code(codes: EncodeMap, c: byte): seq<bool>
    requires |codes| == 256
  {
    LowFirst(codes[c].value, codes[c].bitSize)
  }

  function Next(node: Tree, bit: bool): Tree
    requires node.Node?
  {
    if bit then node.one else node.zero
  }

  /** From `node` the bits lead to the leaf of `c`, and to nothing before it. */
  ghost predicate LeadsTo(node: Tree, bits: seq<bool>, c: byte) {
    && bits != []
    && node.Node?
    && (if |bits| == 1 then Next(node, bits[0]) == End(c) else LeadsTo(Next(node, bits[0]), bits[1..], c))
  }

  /** `k` one-bits from `node` stay on inner nodes. */
  ghost predicate Inner(node: Tree, k: nat) {
    node.Node? && (k > 0 ==> Inner(node.one, k - 1))
  }

  /** What appendix B of RFC 7541 gives the generated tables. */
  ghost predicate ValidCoding(tree: Tree, codes: EncodeMap) {
    && ValidMap(codes)
    && (forall c: byte :: LeadsTo(tree, Code(codes, c), c))
    && Inner(tree, 7)
  }

  /** No code is a prefix of another: it follows from the tree. */
  lemma {:induction false} PrefixFree(tree: Tree, first: seq<bool>, c: byte, second: seq<bool>, d: byte)
    requires LeadsTo(tree, first, c) && LeadsTo(tree, second, d) && first <= second
    ensures c == d && first == second
    decreases |first|
  {
    if |first| == 1 {
      if |second| > 1 {
        assert false;
      }
    } else {
      PrefixFree(Next(tree, first[0]), first[1..], c, second[1..], d);
      assert first == [first[0]] + first[1..] && second == [second[0]] + second[1..];
    }
  }

  // ----- decoding

  /** Room for the output, in symbols of the shortest code. */
  function OutputLimit(size: nat): nat {
    (size * 8 + (MIN_BITS_PER_CHAR - 1)) / MIN_BITS_PER_CHAR
  }

  /** The decoding loop on the remaining bits. It refuses the symbol that would
      fill the output completely. */
  function DecodeBits(tree: Tree, node: Tree, bits: seq<bool>, limit: nat, out: Str): Result<Str>
    requires tree.Node? && node.Node?
    decreases |bits|
  {
    if bits == [] then Ok(out)
    else
      match Next(node, bits[0])
      case Error => Err(Malformed)
      case End(c) =>
        if |out| + 1 >= limit then Err(TooBig)
        else DecodeBits(tree, tree, bits[1..], limit, out + [c])
      case Node(_, _) => DecodeBits(tree, Next(node, bits[0]), bits[1..], limit, out)
  }

  function Decode(tree: Tree, data: Str): Result<Str>
    requires tree.Node?
  {
    if data == [] then Err(Malformed)
    else DecodeBits(tree, tree, Unpack(data), OutputLimit(|data|), [])
  }

  /** The loop over bytes and bit positions. The check for leftover bits
      compares the buffer size with a position inside it, so it always passes. */
  method DecodeBytes(tree: Tree, data: Str) returns (r: Result<Str>)
    requires tree.Node?
    ensures r == Decode(tree, data)
  {
    if |data| == 0 {
      return Err(Malformed);
    }
    var limit := OutputLimit(|data|);
    var bits := Unpack(data);
    var values: Str := [];
    var pos, bitsPos := 0, 0;
    var lastPos := 0;
    var node := tree;
    assert bits[0..] == bits;
    while pos < |data|
      invariant lastPos <= pos <= |data| && bitsPos < 8 && (pos == |data| ==> bitsPos == 0)
      invariant node.Node?
      invariant Decode(tree, data) == DecodeBits(tree, node, bits[8 * pos + bitsPos..], limit, values)
      decreases 8 * (|data| - pos) - bitsPos
    {
      var bit := TestBit(data[pos], bitsPos);
      ghost var at := 8 * pos + bitsPos;
      UnpackAt(data, pos, bitsPos);
      assert bits[at..][0] == bit && bits[at..][1..] == bits[at + 1..];
      var next := Next(node, bit);
      if next.Error? {
        return Err(Malformed);
      }
      if next.End? {
        values := values + [next.value];
        if |values| >= limit {
          return Err(TooBig);
        }
        node := tree;
        pos, bitsPos := BitPosInc(pos, bitsPos);
        lastPos := pos;
      } else {
        node := next;
        pos, bitsPos := BitPosInc(pos, bitsPos);
      }
    }
    assert bits[8 * pos..] == [];
    assert |data| >= lastPos;
    return Ok(values);
  }

  method BitPosInc(pos: nat, bitsPos: nat) returns (pos': nat, bitsPos': nat)
    requires bitsPos < 8
    ensures 8 * pos' + bitsPos' == 8 * pos + bitsPos + 1 && bitsPos' < 8
  {
    pos', bitsPos' := pos, bitsPos + 1;
    if bitsPos' >= 8 {
      pos', bitsPos' := pos + 1, 0;
    }
  }

  // ----- encoding

  function EncodeBits(codes: EncodeMap, s: Str): seq<bool>
    requires |codes| == 256
  {
    if s == [] then [] else EncodeBits(codes, s[..|s| - 1]) + Code(codes, s[|s| - 1])
  }

  function Ones(k: nat): (bits: seq<bool>)
    ensures |bits| == k
  {
    seq(k, _ => true)
  }

  /** How many one-bits complete the last byte. */
  function Padding(n: nat): (k: nat)
    ensures k < 8 && (n + k) % 8 == 0
  {
    if n % 8 == 0 then 0 else 8 - n % 8
  }

  function Encode(codes: EncodeMap, s: Str): Str
    requires |codes| == 256
  {
    var bits := EncodeBits(codes, s);
    Pack(bits + Ones(Padding(|bits|)))
  }

  /** The size computed ahead of the encoding. */
  method EncodedSize(codes: EncodeMap, s: Str) returns (size: nat)
    requires |codes| == 256
    ensures size == |Encode(codes, s)|
  {
    var resultBits := 0;
    for i := 0 to |s|
      invariant resultBits == |EncodeBits(codes, s[..i])|
    {
      assert s[..i + 1][..i] == s[..i];
      resultBits := resultBits + codes[s[i]].bitSize;
    }
    assert s[..|s|] == s;
    size := (resultBits + 7) / 8;
  }

  /** `bits` are packed into the buffer, `pos` full bytes and `j` more bits. */
  ghost predicate Packed(out: array<byte>, before: Str, at: nat, bits: seq<bool>, pos: nat, j: nat)
    reads out
  {
    && j < 8 && |bits| == 8 * pos + j
    && Wrote(out, before, at, Pack(bits), |Pack(bits)|)
  }

  lemma PackedSize(bits: seq<bool>, pos: nat, j: nat)
    requires j < 8 && |bits| == 8 * pos + j
    ensures |Pack(bits)| == ByteCount(pos, j)
  {
  }

  /** Write one bit; a fresh byte is cleared before the bound is looked at. */
  method PutBit(out: array<byte>, at: nat, maxSize: nat, pos: nat, j: nat, bit: bool,
                ghost before: Str, ghost bits: seq<bool>) returns (ok: bool)
    requires Packed(out, before, at, bits, pos, j)
    requires at + maxSize <= out.Length && at + pos < out.Length
    modifies out
    ensures ok <==> pos < maxSize
    ensures ok ==> |bits + [bit]| == 8 * pos + j + 1
    ensures ok ==> Wrote(out, before, at, Pack(bits + [bit]), |Pack(bits + [bit])|)
  {
    PackedSize(bits, pos, j);
    if j == 0 {
      out[at + pos] := 0;
    }
    if pos >= maxSize {
      return false;
    }
    var w := Shl(Digit(bit), 7 - j);
    ghost var more := Pack(bits + [bit]);
    assert more == PackNext(Pack(bits), pos, j, w) by { PackSnoc(bits, pos, j, bit, 7 - j); }
    assert more[pos] == out[at + pos] + w;
    out[at + pos] := out[at + pos] + w;
    ok := true;
  }

  /** The bits of one code, lowest bit first. */
  method PutCode(out: array<byte>, at: nat, maxSize: nat, pos0: nat, j0: nat, entry: EncodeEntry,
                 ghost before: Str, ghost bits: seq<bool>) returns (ok: bool, pos: nat, j: nat)
    requires Packed(out, before, at, bits, pos0, j0)
    requires at + maxSize <= out.Length
    requires |bits| + entry.bitSize <= 8 * maxSize || at + maxSize < out.Length
    requires pos0 < maxSize || (j0 == 0 && pos0 == maxSize)
    modifies out
    ensures ok <==> |bits| + entry.bitSize <= 8 * maxSize
    ensures ok ==> Packed(out, before, at, bits + LowFirst(entry.value, entry.bitSize), pos, j)
    ensures ok ==> pos < maxSize || (j == 0 && pos == maxSize)
  {
    pos, j := pos0, j0;
    var value := entry.value;
    ghost var done := bits;
    assert done + LowFirst(value, entry.bitSize) == bits + LowFirst(entry.value, entry.bitSize);
    for i := 0 to entry.bitSize
      invariant Packed(out, before, at, done, pos, j)
      invariant |done| == |bits| + i
      invariant done + LowFirst(value, entry.bitSize - i) == bits + LowFirst(entry.value, entry.bitSize)
      invariant pos < maxSize || (j == 0 && pos == maxSize)
    {
      var bit := value % 2 == 1;
      ok := PutBit(out, at, maxSize, pos, j, bit, before, done);
      if !ok {
        return;
      }
      NextBit(done, value, entry.bitSize - i);
      done := done + [bit];
      value := value / 2;
      pos, j := BitPosInc(pos, j);
    }
    assert done + [] == done;
    ok := true;
  }

  lemma NextBit(done: seq<bool>, value: nat, n: nat)
    requires n > 0
    ensures done + LowFirst(value, n) == done + [value % 2 == 1] + LowFirst(value / 2, n - 1)
  {
  }

  /** Complete the last byte with one-bits. */
  lemma {:induction false} PackPad(bits: seq<bool>, pos: nat, j: nat, m: nat)
    requires |bits| == 8 * pos + j && 0 < j < 8 && j + m == 8
    ensures |Pack(bits)| == pos + 1
    ensures Pack(bits + Ones(m)) == Pack(bits)[..pos] + [Pack(bits)[pos] + Shl(1, m) - 1]
    decreases m
  {
    PackSnoc(bits, pos, j, true, m - 1);
    if m == 1 {
      assert Ones(1) == [true];
    } else {
      assert bits + Ones(m) == bits + [true] + Ones(m - 1);
      PackPad(bits + [true], pos, j + 1, m - 1);
    }
  }

  /** Encode into a buffer with room for `maxSize` bytes. One byte beyond the
      room is cleared before the shortage is noticed, so a buffer that is too
      small must really be one byte larger. */
  method EncodeInto(codes: EncodeMap, out: array<byte>, at: nat, maxSize: nat, s: Str) returns (r: Option<nat>)
    requires ValidMap(codes) && at + maxSize <= out.Length
    requires |Encode(codes, s)| <= maxSize || at + maxSize < out.Length
    modifies out
    ensures r == if |Encode(codes, s)| <= maxSize then Some(|Encode(codes, s)|) else None
    ensures r.Some? ==> Wrote(out, old(out[..]), at, Encode(codes, s), |Encode(codes, s)|)
  {
    if |s| == 0 {
      return Some(0);
    }
    EncodeBitsGrow(codes, s, 0);
    if maxSize == 0 {
      return None;
    }
    ghost var before := out[..];
    EncodedFits(codes, s, maxSize);
    var ok, pos, j := PutString(codes, out, at, maxSize, s);
    if !ok {
      return None;
    }
    pos := PadLast(out, at, pos, j, before, EncodeBits(codes, s));
    return Some(pos);
  }

  lemma EncodedFits(codes: EncodeMap, s: Str, maxSize: nat)
    requires |codes| == 256
    ensures |Encode(codes, s)| <= maxSize <==> |EncodeBits(codes, s)| <= 8 * maxSize
  {
    hide EncodeBits, Pack, Padding;
    var n := |EncodeBits(codes, s)|;
    WholeBytes(n, Padding(n), maxSize);
  }

  lemma WholeBytes(n: nat, k: nat, maxSize: nat)
    requires k < 8 && (n + k) % 8 == 0
    ensures (n + k + 7) / 8 <= maxSize <==> n <= 8 * maxSize
  {
    var q := (n + k) / 8;
    assert n + k == 8 * q;
  }

  method PutString(codes: EncodeMap, out: array<byte>, at: nat, maxSize: nat, s: Str)
    returns (ok: bool, pos: nat, j: nat)
    requires ValidMap(codes) && at + maxSize <= out.Length && maxSize > 0
    requires |EncodeBits(codes, s)| <= 8 * maxSize || at + maxSize < out.Length
    modifies out
    ensures ok <==> |EncodeBits(codes, s)| <= 8 * maxSize
    ensures ok ==> Packed(out, old(out[..]), at, EncodeBits(codes, s), pos, j)
  {
    ghost var before := out[..];
    pos, j := 0, 0;
    for i := 0 to |s|
      invariant Packed(out, before, at, EncodeBits(codes, s[..i]), pos, j)
      invariant pos < maxSize || (j == 0 && pos == maxSize)
    {
      assert s[..i + 1][..i] == s[..i];
      EncodeBitsGrow(codes, s, i + 1);
      ok, pos, j := PutCode(out, at, maxSize, pos, j, codes[s[i]], before, EncodeBits(codes, s[..i]));
      if !ok {
        return;
      }
    }
    assert s[..|s|] == s;
    ok := true;
  }

  lemma PaddingAt(pos: nat, j: nat)
    requires j < 8
    ensures Padding(8 * pos + j) == if j == 0 then 0 else 8 - j
  {
  }

  method PadLast(out: array<byte>, at: nat, pos: nat, j: nat,
                 ghost before: Str, ghost bits: seq<bool>) returns (size: nat)
    requires Packed(out, before, at, bits, pos, j)
    modifies out
    ensures size == |Pack(bits + Ones(Padding(|bits|)))|
    ensures Wrote(out, before, at, Pack(bits + Ones(Padding(|bits|))), size)
  {
    PaddingAt(pos, j);
    PackedSize(bits, pos, j);
    if j == 0 {
      assert bits + Ones(0) == bits;
      return pos;
    }
    var m := 8 - j;
    PackPad(bits, pos, j, m);
    AddToLast(out, at, pos, Shl(1, m) - 1, before, Pack(bits), Pack(bits + Ones(m)));
    size := pos + 1;
  }

  method AddToLast(out: array<byte>, at: nat, pos: nat, w: int, ghost before: Str, ghost packed: Str, ghost full: Str)
    requires |packed| == pos + 1 && Wrote(out, before, at, packed, pos + 1)
    requires full == packed[..pos] + [packed[pos] + w]
    modifies out
    ensures Wrote(out, before, at, full, pos + 1)
  {
    assert out[at + pos] == packed[pos] && full[pos] == packed[pos] + w;
    out[at + pos] := out[at + pos] + w;
  }

  lemma {:induction false} EncodeBitsGrow(codes: EncodeMap, s: Str, n: nat)
    requires ValidMap(codes) && n <= |s|
    ensures |EncodeBits(codes, s[..n])| + MIN_BITS_PER_CHAR * (|s| - n) <= |EncodeBits(codes, s)|
    decreases |s|
  {
    if n == |s| {
      assert s[..n] == s;
    } else {
      var shorter := s[..|s| - 1];
      assert shorter[..n] == s[..n];
      EncodeBitsGrow(codes, shorter, n);
    }
  }

  // ----- round trip

  /** The strings the decoder refuses to give back: their symbols all have the
      shortest code and fill the output exactly. */
  ghost predicate FillsOutput(codes: EncodeMap, s: Str)
    requires |codes| == 256
  {
    |s| % 8 == 0 && forall i | 0 <= i < |s| :: codes[s[i]].bitSize == MIN_BITS_PER_CHAR
  }

  lemma {:induction false} DecodeCode(tree: Tree, node: Tree, code: seq<bool>, c: byte,
                                      rest: seq<bool>, limit: nat, out: Str)
    requires tree.Node? && LeadsTo(node, code, c)
    ensures DecodeBits(tree, node, code + rest, limit, out)
         == if |out| + 1 >= limit then Err(TooBig) else DecodeBits(tree, tree, rest, limit, out + [c])
    decreases |code|
  {
    var bits := code + rest;
    assert bits[0] == code[0];
    if |code| == 1 {
      assert bits[1..] == rest;
    } else {
      assert bits[1..] == code[1..] + rest;
      DecodeCode(tree, Next(node, code[0]), code[1..], c, rest, limit, out);
    }
  }

  /** The bits stay on inner nodes, without a symbol or an error. */
  ghost predicate Stays(node: Tree, bits: seq<bool>) {
    node.Node? && (bits != [] ==> Stays(Next(node, bits[0]), bits[1..]))
  }

  /** The bits run into an error node before they complete a symbol. */
  ghost predicate RunsIntoError(node: Tree, bits: seq<bool>) {
    && node.Node? && bits != []
    && (Next(node, bits[0]).Error? || RunsIntoError(Next(node, bits[0]), bits[1..]))
  }

  lemma {:induction false} DecodeRest(tree: Tree, node: Tree, bits: seq<bool>, limit: nat, out: Str)
    requires tree.Node? && node.Node?
    ensures Stays(node, bits) ==> DecodeBits(tree, node, bits, limit, out) == Ok(out)
    ensures RunsIntoError(node, bits) ==> DecodeBits(tree, node, bits, limit, out) == Err(Malformed)
    decreases |bits|
  {
    if bits != [] {
      var next := Next(node, bits[0]);
      match next
      case Error => assert !Stays(next, bits[1..]);
      case End(_) => assert !Stays(next, bits[1..]) && !RunsIntoError(next, bits[1..]);
      case Node(_, _) => DecodeRest(tree, next, bits[1..], limit, out);
    }
  }

  /** Behind the codes of a string, bits that complete no symbol are dropped,
      however many and whichever they are, and bits that no code starts with
      are refused; a string that fills the output is refused before. */
  lemma {:induction false} DecodeStringThen(tree: Tree, codes: EncodeMap, s: Str, bits: seq<bool>, limit: nat, out: Str)
    requires ValidCoding(tree, codes) && (Stays(tree, bits) || RunsIntoError(tree, bits))
    ensures DecodeBits(tree, tree, EncodeBits(codes, s) + bits, limit, out)
         == if s != [] && |out| + |s| >= limit then Err(TooBig)
            else if Stays(tree, bits) then Ok(out + s)
            else Err(Malformed)
    decreases |s|
  {
    if s == [] {
      DecodeRest(tree, tree, bits, limit, out);
      NotBoth(tree, bits);
      assert EncodeBits(codes, s) + bits == bits && out + s == out;
    } else {
      var code, rest := Code(codes, s[0]), EncodeBits(codes, s[1..]);
      EncodeBitsCons(codes, s);
      assert EncodeBits(codes, s) + bits == code + (rest + bits);
      DecodeCode(tree, tree, code, s[0], rest + bits, limit, out);
      DecodeStringThen(tree, codes, s[1..], bits, limit, out + [s[0]]);
      assert out + [s[0]] + s[1..] == out + s;
    }
  }

  lemma {:induction false} NotBoth(node: Tree, bits: seq<bool>)
    ensures !(Stays(node, bits) && RunsIntoError(node, bits))
    decreases |bits|
  {
    if bits != [] && node.Node? {
      NotBoth(Next(node, bits[0]), bits[1..]);
    }
  }

  lemma {:induction false} PaddingStays(node: Tree, k: nat)
    requires Inner(node, k)
    ensures Stays(node, Ones(k))
    decreases k
  {
    if k > 0 {
      assert Ones(k)[1..] == Ones(k - 1);
      PaddingStays(node.one, k - 1);
    }
  }

  lemma {:induction false} InnerLess(node: Tree, k: nat, n: nat)
    requires Inner(node, n) && k <= n
    ensures Inner(node, k)
    decreases k
  {
    if k > 0 {
      InnerLess(node.one, k - 1, n - 1);
    }
  }

  lemma {:induction false} EncodeBitsCons(codes: EncodeMap, s: Str)
    requires |codes| == 256 && s != []
    ensures EncodeBits(codes, s) == Code(codes, s[0]) + EncodeBits(codes, s[1..])
    decreases |s|
  {
    var last := |s| - 1;
    var front := s[..last];
    assert EncodeBits(codes, s) == EncodeBits(codes, front) + Code(codes, s[last]);
    if last == 0 {
      assert s[1..] == [];
    } else {
      var tail := s[1..];
      assert tail[..last - 1] == front[1..] && tail[last - 1] == s[last];
      EncodeBitsCons(codes, front);
      assert EncodeBits(codes, tail) == EncodeBits(codes, front[1..]) + Code(codes, s[last]);
    }
  }

  lemma DecodeString(tree: Tree, codes: EncodeMap, s: Str, k: nat, limit: nat, out: Str)
    requires ValidCoding(tree, codes) && k < 8
    ensures DecodeBits(tree, tree, EncodeBits(codes, s) + Ones(k), limit, out)
         == if s != [] && |out| + |s| >= limit then Err(TooBig) else Ok(out + s)
  {
    InnerLess(tree, k, 7);
    PaddingStays(tree, k);
    DecodeStringThen(tree, codes, s, Ones(k), limit, out);
  }

  lemma {:induction false} BitsLowerBound(codes: EncodeMap, s: Str)
    requires ValidMap(codes)
    ensures |EncodeBits(codes, s)| >= MIN_BITS_PER_CHAR * |s|
    ensures |EncodeBits(codes, s)| == MIN_BITS_PER_CHAR * |s| <==>
            forall i | 0 <= i < |s| :: codes[s[i]].bitSize == MIN_BITS_PER_CHAR
    decreases |s|
  {
    if s != [] {
      var shorter := s[..|s| - 1];
      BitsLowerBound(codes, shorter);
      assert forall i | 0 <= i < |shorter| :: shorter[i] == s[i];
      assert s[|s| - 1] in s;
    }
  }

  /** Section 5.2 of RFC 7541: decoding what was encoded gives the string back
      unless it is empty, or fills the output exactly, and then an error. */
  lemma RoundTrip(tree: Tree, codes: EncodeMap, s: Str)
    requires ValidCoding(tree, codes)
    ensures s == [] ==> Encode(codes, s) == [] && Decode(tree, []) == Err(Malformed)
    ensures s != [] ==> Decode(tree, Encode(codes, s)) == if FillsOutput(codes, s) then Err(TooBig) else Ok(s)
  {
    if s != [] {
      var bits := EncodeBits(codes, s);
      var k := Padding(|bits|);
      var data := Encode(codes, s);
      UnpackPack(bits + Ones(k));
      BitsLowerBound(codes, s);
      DecodeString(tree, codes, s, k, OutputLimit(|data|), []);
      LimitReached(|s|, |bits|, |data|, k);
      assert [] + s == s;
    }
  }

  /** The output is full exactly when no bit was spent beyond five per symbol. */
  lemma LimitReached(n: nat, bits: nat, size: nat, k: nat)
    requires n > 0 && bits >= MIN_BITS_PER_CHAR * n && k == Padding(bits) && size * 8 == bits + k
    ensures n >= OutputLimit(size) <==> n % 8 == 0 && bits == MIN_BITS_PER_CHAR * n
  {
  }

  /** The simplest string that is lost: one symbol of the shortest code, eight times. */
  lemma EightShortSymbolsAreRefused(tree: Tree, codes: EncodeMap, c: byte)
    requires ValidCoding(tree, codes) && codes[c].bitSize == MIN_BITS_PER_CHAR
    ensures Decode(tree, Encode(codes, [c, c, c, c, c, c, c, c])) == Err(TooBig)
  {
    RoundTrip(tree, codes, [c, c, c, c, c, c, c, c]);
  }
}
