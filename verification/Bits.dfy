/** Bit strings, most significant bit first, and their packing into bytes. */
module Bits {
  import opened Wrappers
  import opened PrefixInteger

  function Value(bits: seq<bool>): nat {
    if bits == [] then 0 else 2 * Value(bits[..|bits| - 1]) + Digit(bits[|bits| - 1])
  }

  function Digit(b: bool): nat {
    if b then 1 else 0
  }

  /** The low `n` bits of `v`. */
  function BitsOf(v: nat, n: nat): (bits: seq<bool>)
    ensures |bits| == n
  {
    if n == 0 then [] else BitsOf(v / 2, n - 1) + [v % 2 == 1]
  }

  lemma {:induction false} ValueBound(bits: seq<bool>)
    ensures Value(bits) < Shl(1, |bits|)
    decreases |bits|
  {
    if bits != [] {
      ValueBound(bits[..|bits| - 1]);
    }
  }

  lemma {:induction false} BitsOfValue(bits: seq<bool>)
    ensures BitsOf(Value(bits), |bits|) == bits
    decreases |bits|
  {
    if bits != [] {
      BitsOfValue(bits[..|bits| - 1]);
    }
  }

  /** All bits of a byte string. */
  function Unpack(data: Str): (bits: seq<bool>)
    ensures |bits| == 8 * |data|
  {
    if data == [] then [] else BitsOf(data[0], 8) + Unpack(data[1..])
  }

  /** The bit tested by the mask of position `j`. */
  function TestBit(b: byte, j: nat): bool
    requires j < 8
  {
    BitsOf(b, 8)[j]
  }

  lemma {:induction false} UnpackAt(data: Str, pos: nat, j: nat)
    requires pos < |data| && j < 8
    ensures Unpack(data)[8 * pos + j] == TestBit(data[pos], j)
  {
    if pos > 0 {
      UnpackAt(data[1..], pos - 1, j);
    }
  }

  /** `v >> k` */
  function Shr(v: nat, k: nat): nat {
    if k == 0 then v else Shr(v / 2, k - 1)
  }

  /** Position 0 is the most significant bit. */
  lemma {:induction false} BitsOfAt(v: nat, n: nat, j: nat)
    requires j < n
    ensures BitsOf(v, n)[j] <==> Shr(v, n - 1 - j) % 2 == 1
    decreases n
  {
    if j < n - 1 {
      BitsOfAt(v / 2, n - 1, j);
    }
  }

  /** The bits in bytes, the last byte filled up with zero bits. */
  function Pack(bits: seq<bool>): (data: Str)
    ensures |data| == (|bits| + 7) / 8
  {
    if bits == [] then []
    else if |bits| <= 8 then [Partial(bits)]
    else [Partial(bits[..8])] + Pack(bits[8..])
  }

  function Partial(bits: seq<bool>): byte
    requires |bits| <= 8
  {
    PartialBound(bits);
    Shl(Value(bits), 8 - |bits|)
  }

  lemma PartialBound(bits: seq<bool>)
    requires |bits| <= 8
    ensures Shl(Value(bits), 8 - |bits|) < 256
  {
    ValueBound(bits);
    ShlBelow(Value(bits), |bits|, 8 - |bits|);
    assert Shl(1, 8) == 256;
  }

  lemma {:induction false} ShlBelow(x: nat, n: nat, k: nat)
    requires x < Shl(1, n)
    ensures Shl(x, k) < Shl(1, n + k)
    decreases k
  {
    if k > 0 {
      ShlBelow(x, n, k - 1);
    }
  }

  lemma PackCons(head: seq<bool>, tail: seq<bool>)
    requires |head| == 8
    ensures Pack(head + tail) == [Partial(head)] + Pack(tail)
  {
    if tail == [] {
      assert head + tail == head;
    } else {
      assert (head + tail)[..8] == head && (head + tail)[8..] == tail;
    }
  }

  lemma PartialBits(head: seq<bool>)
    requires |head| == 8
    ensures BitsOf(Partial(head), |head|) == head
  {
    BitsOfValue(head);
  }

  lemma {:induction false} UnpackPack(bits: seq<bool>)
    requires |bits| % 8 == 0
    ensures Unpack(Pack(bits)) == bits
    decreases |bits|
  {
    if bits != [] {
      var head, tail := bits[..8], bits[8..];
      assert bits == head + tail;
      PackCons(head, tail);
      PartialBits(head);
      UnpackPack(tail);
      UnpackCons(Partial(head), Pack(tail));
    }
  }

  lemma UnpackCons(b: byte, data: Str)
    ensures Unpack([b] + data) == BitsOf(b, 8) + Unpack(data)
  {
    assert ([b] + data)[1..] == data;
  }

  /** How many bytes hold `pos` full bytes and `j` more bits. */
  function ByteCount(pos: nat, j: nat): nat {
    if j == 0 then pos else pos + 1
  }

  /** The packed bytes after one more bit of weight `w`: a new byte, or that
      bit set in the last byte. */
  function PackNext(packed: seq<int>, pos: nat, j: nat, w: nat): seq<int>
    requires j < 8 && |packed| == ByteCount(pos, j)
  {
    if j == 0 then packed + [w] else packed[..pos] + [packed[pos] + w]
  }

  lemma {:induction false} PackSnoc(bits: seq<bool>, pos: nat, j: nat, b: bool, k: nat)
    requires |bits| == 8 * pos + j && j + k == 7
    ensures |Pack(bits)| == ByteCount(pos, j)
    ensures Pack(bits + [b]) == PackNext(Pack(bits), pos, j, Shl(Digit(b), k))
    decreases pos
  {
    if pos == 0 {
      PackSnocFirst(bits, b, k);
    } else {
      var head, tail := bits[..8], bits[8..];
      assert bits == head + tail && bits + [b] == head + (tail + [b]);
      PackCons(head, tail);
      PackCons(head, tail + [b]);
      PackSnoc(tail, pos - 1, j, b, k);
    }
  }

  lemma PackSnocFirst(bits: seq<bool>, b: bool, k: nat)
    requires |bits| + k == 7
    ensures Pack(bits + [b]) == PackNext(Pack(bits), 0, |bits|, Shl(Digit(b), k))
  {
    PartialSnoc(bits, b, k);
    assert Pack(bits + [b]) == [Partial(bits + [b])];
    if bits == [] {
      ShlZero(k + 1);
    }
  }

  lemma ValueSnoc(bits: seq<bool>, b: bool)
    ensures Value(bits + [b]) == 2 * Value(bits) + Digit(b)
  {
    assert (bits + [b])[..|bits|] == bits;
  }

  lemma PartialAt(bits: seq<bool>, k: nat)
    requires |bits| + k == 8
    ensures Partial(bits) == Shl(Value(bits), k)
  {
  }

  lemma PartialSnoc(bits: seq<bool>, b: bool, k: nat)
    requires |bits| + k == 7
    ensures Partial(bits + [b]) == Shl(Value(bits), k + 1) + Shl(Digit(b), k)
    ensures Partial(bits) == Shl(Value(bits), k + 1)
  {
    PartialAt(bits, k + 1);
    PartialAt(bits + [b], k);
    ValueSnoc(bits, b);
    ShlAppend(Value(bits), Digit(b), k);
  }

  lemma {:induction false} ShlZero(k: nat)
    ensures Shl(0, k) == 0
    decreases k
  {
    if k > 0 {
      ShlZero(k - 1);
    }
  }

  lemma {:induction false} ShlAppend(x: nat, d: nat, k: nat)
    ensures Shl(2 * x + d, k) == Shl(x, k + 1) + Shl(d, k)
    decreases k
  {
    if k > 0 {
      ShlAppend(x, d, k - 1);
    }
  }
}
