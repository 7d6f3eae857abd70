/** Prefix-coded integers (src/http/hpack.c:27-121; section 5.1 of RFC 7541). */
module PrefixInteger {
  import opened Wrappers
  import opened Numbers
  import opened Buffers

  const INT_LIMIT: nat := 0x8000_0000
  const UINT64_LIMIT: nat := 0x1_0000_0000_0000_0000

  /** More bytes than this are refused by the field encoders. */
  const MAX_INTEGER_SIZE: nat := (8 * 8 + 7) / 7

  predicate IsPrefix(prefix: nat) {
    1 <= prefix <= 8
  }

  /** `(1 << prefix) - 1` */
  function Mask(prefix: nat): nat
    requires IsPrefix(prefix)
  {
    match prefix
    case 1 => 1 case 2 => 3 case 3 => 7 case 4 => 15
    case 5 => 31 case 6 => 63 case 7 => 127 case 8 => 255
  }

  /** `b & mask` */
  function LowBits(b: byte, prefix: nat): nat
    requires IsPrefix(prefix)
  {
    match prefix
    case 1 => b % 2 case 2 => b % 4 case 3 => b % 8 case 4 => b % 16
    case 5 => b % 32 case 6 => b % 64 case 7 => b % 128 case 8 => b
  }

  /** A byte whose low `prefix` bits are free for the integer. */
  predicate HasRoom(first: byte, prefix: nat) {
    IsPrefix(prefix) && LowBits(first, prefix) == 0
  }

  /** With free low bits, `first | x` is `first + x`. */
  lemma FillLowBits(first: byte, x: nat, prefix: nat)
    requires HasRoom(first, prefix) && x <= Mask(prefix)
    ensures first + x < 256 && LowBits(first + x, prefix) == x
  {
    match prefix
    case 1 => AddLow(first, x, 2);
    case 2 => AddLow(first, x, 4);
    case 3 => AddLow(first, x, 8);
    case 4 => AddLow(first, x, 16);
    case 5 => AddLow(first, x, 32);
    case 6 => AddLow(first, x, 64);
    case 7 => AddLow(first, x, 128);
    case 8 => AddLow(first, x, 256);
  }

  lemma AddLow(first: byte, x: nat, d: nat)
    requires d in {2, 4, 8, 16, 32, 64, 128, 256} && first % d == 0 && x < d
    ensures first + x < 256 && (first + x) % d == x
  {
    ModuloUnique(first / d, d, x);
    MultipleBelow256(first / d, d);
  }

  lemma MultipleBelow256(q: nat, d: nat)
    requires d in {2, 4, 8, 16, 32, 64, 128, 256} && q * d < 256
    ensures q * d <= 256 - d
  {
    var k := 256 / d;
    assert k * d == 256;
    assert q >= k ==> q * d >= k * d;
    assert q <= k - 1 ==> q * d <= (k - 1) * d;
  }

  /** `x << n` */
  function Shl(x: nat, n: nat): nat {
    if n == 0 then x else 2 * Shl(x, n - 1)
  }

  lemma ShlBySeven(x: nat, n: nat)
    ensures Shl(x, n + 7) == 0x80 * Shl(x, n)
  {
    assert Shl(x, n + 7) == 2 * Shl(x, n + 6);
    assert Shl(x, n + 6) == 2 * Shl(x, n + 5);
    assert Shl(x, n + 5) == 2 * Shl(x, n + 4);
    assert Shl(x, n + 4) == 2 * Shl(x, n + 3);
    assert Shl(x, n + 3) == 2 * Shl(x, n + 2);
    assert Shl(x, n + 2) == 2 * Shl(x, n + 1);
  }

  lemma ShlValues(x: nat)
    ensures Shl(x, 0) == x && Shl(x, 7) == 0x80 * x && Shl(x, 14) == 0x4000 * x
    ensures Shl(x, 21) == 0x20_0000 * x && Shl(x, 28) == 0x1000_0000 * x && Shl(x, 35) == 0x8_0000_0000 * x
  {
    ShlBySeven(x, 0);
    ShlBySeven(x, 7);
    ShlBySeven(x, 14);
    ShlBySeven(x, 21);
    ShlBySeven(x, 28);
  }

  /** Base-128 digits, least significant first, all but the last with the top bit set. */
  function Digits(v: nat): (digits: seq<byte>)
    ensures |digits| >= 1
  {
    if v >= 0x80 then [0x80 + v % 0x80] + Digits(v / 0x80) else [v]
  }

  function Encode(first: byte, v: nat, prefix: nat): (bytes: seq<byte>)
    requires HasRoom(first, prefix)
    ensures |bytes| >= 1
  {
    FillLowBits(first, Mask(prefix), prefix);
    EncodeAfter(first, v, Mask(prefix))
  }

  function EncodeAfter(first: byte, v: nat, mask: nat): (bytes: seq<byte>)
    requires first + mask < 256
    ensures |bytes| >= 1
  {
    if v < mask then [first + v] else [first + mask] + Digits(v - mask)
  }

  /** A decoded value and how many bytes it took. */
  datatype Decoded = Decoded(value: nat, used: nat)

  /** The continuation loop. `(byte & 0x7F) << amount` is a shift of a C int:
      it is undefined once the result leaves that type. */
  function DecodeDigits(data: seq<byte>, amount: nat, acc: nat, used: nat): (r: Result<Decoded>)
    ensures r.Ok? ==> used < r.value.used <= used + |data|
  {
    if data == [] then Err(Truncated)
    else if amount / 8 >= 7 then Err(TooBig)
    else if amount >= 32 || Shl(data[0] % 0x80, amount) >= INT_LIMIT then Err(Undefined)
    else
      var acc' := acc + Shl(data[0] % 0x80, amount);
      if data[0] < 0x80 then Ok(Decoded(acc', used + 1))
      else DecodeDigits(data[1..], amount + 7, acc', used + 1)
  }

  function Decode(data: seq<byte>, prefix: nat): (r: Result<Decoded>)
    requires data != [] && IsPrefix(prefix)
    ensures r.Ok? ==> 1 <= r.value.used <= |data|
  {
    DecodeAfter(LowBits(data[0], prefix), Mask(prefix), data[1..])
  }

  function DecodeAfter(low: nat, mask: nat, tail: seq<byte>): (r: Result<Decoded>)
    ensures r.Ok? ==> 1 <= r.value.used <= 1 + |tail|
  {
    if low < mask then Ok(Decoded(low, 1)) else DecodeDigits(tail, 0, low, 1)
  }

  /** The values the decoder reads back. */
  predicate Representable(v: nat, prefix: nat)
    requires IsPrefix(prefix)
  {
    v < Mask(prefix) || v - Mask(prefix) < INT_LIMIT
  }

  /** `x << 7 * j`, spelled out. */
  function Times(x: nat, j: nat): nat
    requires j <= 5
  {
    match j
    case 0 => x case 1 => 0x80 * x case 2 => 0x4000 * x
    case 3 => 0x20_0000 * x case 4 => 0x1000_0000 * x case 5 => 0x8_0000_0000 * x
  }

  lemma ShlIsTimes(x: nat, j: nat)
    requires j <= 5
    ensures Shl(x, 7 * j) == Times(x, j)
  {
    ShlValues(x);
  }

  lemma SplitTimes(q: nat, d: nat, j: nat)
    requires q >= 1 && d < 0x80 && j <= 4
    ensures Times(d, j) + Times(q, j + 1) == Times(0x80 * q + d, j)
    ensures Times(q, j + 1) < INT_LIMIT ==> Times(0x80 * q + d, j) < INT_LIMIT
  {
    match j
    case 0 =>
    case 1 =>
    case 2 =>
    case 3 =>
    case 4 =>
  }

  /** Splitting off the lowest digit, for the shifts inside an int. */
  lemma SplitDigit(q: nat, d: nat, j: nat)
    requires q >= 1 && d < 0x80 && j <= 4
    ensures var v := 0x80 * q + d;
            && Shl(d, 7 * j) + Shl(q, 7 * j + 7) == Shl(v, 7 * j)
            && (Shl(q, 7 * j + 7) < INT_LIMIT ==> Shl(v, 7 * j) < INT_LIMIT)
  {
    ShlIsTimes(0x80 * q + d, j);
    ShlIsTimes(d, j);
    ShlIsTimes(q, j + 1);
    SplitTimes(q, d, j);
  }

  /** What reading the digits of `v` back at a shift should give. */
  function Expected(v: nat, amount: nat, acc: nat, used: nat): Result<Decoded> {
    if Shl(v, amount) < INT_LIMIT then Ok(Decoded(acc + Shl(v, amount), used + |Digits(v)|)) else Err(Undefined)
  }

  /** One turn of the continuation loop on the digits of `v`. */
  lemma DecodeStep(v: nat, amount: nat, acc: nat, used: nat, rest: seq<byte>)
    requires amount < 32
    ensures DecodeDigits(Digits(v) + rest, amount, acc, used)
         == if v < 0x80 then Expected(v, amount, acc, used)
            else if Shl(v % 0x80, amount) >= INT_LIMIT then Err(Undefined)
            else DecodeDigits(Digits(v / 0x80) + rest, amount + 7, acc + Shl(v % 0x80, amount), used + 1)
  {
    var data := Digits(v) + rest;
    if v < 0x80 {
      assert data[0] == v;
    } else {
      assert data[0] == 0x80 + v % 0x80;
      assert data[1..] == Digits(v / 0x80) + rest;
    }
  }

  lemma ExpectedStep(v: nat, j: nat, acc: nat, used: nat)
    requires v >= 0x80 && j <= 4
    ensures Expected(v, 7 * j, acc, used)
         == if Shl(v % 0x80, 7 * j) >= INT_LIMIT then Err(Undefined)
            else Expected(v / 0x80, 7 * j + 7, acc + Shl(v % 0x80, 7 * j), used + 1)
  {
    SplitDigit(v / 0x80, v % 0x80, j);
  }

  /** The sixth digit is a shift by more than the width of an int. */
  lemma SixthDigit(v: nat, acc: nat, used: nat, rest: seq<byte>)
    requires v > 0
    ensures DecodeDigits(Digits(v) + rest, 35, acc, used) == Expected(v, 35, acc, used)
  {
    ShlValues(v);
  }

  lemma {:induction false} DigitsRoundTrip(v: nat, j: nat, acc: nat, used: nat, rest: seq<byte>)
    requires j == 0 || (v > 0 && j <= 5)
    ensures DecodeDigits(Digits(v) + rest, 7 * j, acc, used) == Expected(v, 7 * j, acc, used)
    decreases v
  {
    if j == 5 {
      SixthDigit(v, acc, used, rest);
    } else {
      DecodeStep(v, 7 * j, acc, used, rest);
      if v >= 0x80 {
        ExpectedStep(v, j, acc, used);
        DigitsRoundTrip(v / 0x80, j + 1, acc + Shl(v % 0x80, 7 * j), used + 1, rest);
      }
    }
  }

  /** The first byte keeps its high bits and carries the prefix. */
  lemma FirstByte(first: byte, v: nat, prefix: nat)
    requires HasRoom(first, prefix)
    ensures var b := Encode(first, v, prefix)[0];
            && first <= b <= first + Mask(prefix)
            && b - LowBits(b, prefix) == first
            && LowBits(b, prefix) == if v < Mask(prefix) then v else Mask(prefix)
  {
    FillLowBits(first, if v < Mask(prefix) then v else Mask(prefix), prefix);
  }

  /** Section 5.1 of RFC 7541: decoding an encoded integer, with anything after
      it, gives the value and the bytes written, for exactly the representable
      values; beyond them the source shifts a C int out of range. */
  lemma RoundTrip(first: byte, v: nat, prefix: nat, rest: seq<byte>)
    requires HasRoom(first, prefix)
    ensures Decode(Encode(first, v, prefix) + rest, prefix)
         == if Representable(v, prefix) then Ok(Decoded(v, |Encode(first, v, prefix)|)) else Err(Undefined)
  {
    FirstByte(first, v, prefix);
    var bytes := Encode(first, v, prefix);
    assert (bytes + rest)[0] == bytes[0];
    assert (bytes + rest)[1..] == bytes[1..] + rest;
    AfterRoundTrip(v, Mask(prefix), rest);
  }

  /** The largest value of a 7-bit prefix that is read back, and the next one. */
  lemma LargestInteger(rest: seq<byte>)
    ensures Decode(Encode(0, 0x8000_007E, 7) + rest, 7).Ok?
    ensures Decode(Encode(0, 0x8000_007F, 7) + rest, 7) == Err(Undefined)
  {
    RoundTrip(0, 0x8000_007E, 7, rest);
    RoundTrip(0, 0x8000_007F, 7, rest);
  }

  /** The three examples of appendix C.1 of RFC 7541, 1337 with a prefix in use. */
  lemma Examples()
    ensures Encode(0xE0, 10, 5) == [0xEA] && Encode(0x20, 1337, 5) == [0x3F, 0x9A, 0x0A] && Encode(0, 42, 8) == [0x2A]
  {
    assert 1306 / 0x80 == 10 && 1306 % 0x80 == 0x1A;
    assert Digits(1306) == [0x80 + 0x1A] + Digits(10);
  }

  lemma AfterRoundTrip(v: nat, mask: nat, rest: seq<byte>)
    ensures v < mask ==> DecodeAfter(v, mask, rest) == Ok(Decoded(v, 1))
    ensures v >= mask ==>
              DecodeAfter(mask, mask, Digits(v - mask) + rest)
              == if v - mask < INT_LIMIT then Ok(Decoded(v, 1 + |Digits(v - mask)|)) else Err(Undefined)
  {
    if v >= mask {
      DigitsRoundTrip(v - mask, 0, mask, 1, rest);
    }
  }

  lemma {:induction false} DigitsLength(v: nat, k: nat)
    requires k >= 1 && v < Shl(1, 7 * k)
    ensures |Digits(v)| <= k
    decreases k
  {
    if v >= 0x80 {
      if k == 1 {
        ShlValues(1);
      } else {
        ShlBySeven(1, 7 * (k - 1));
        DigitsLength(v / 0x80, k - 1);
      }
    }
  }

  lemma NineAndTenDigits()
    ensures Shl(1, 63) == UINT64_LIMIT / 2
    ensures Shl(1, 70) == 64 * UINT64_LIMIT
  {
    ShlValues(1);
    ShlBySeven(1, 35);
    ShlBySeven(1, 42);
    ShlBySeven(1, 49);
    ShlBySeven(1, 56);
    ShlBySeven(1, 63);
  }

  /** A value below 2^63 never hits the size check of the field encoders. */
  lemma ShortEnough(first: byte, v: nat, prefix: nat)
    requires HasRoom(first, prefix) && v < UINT64_LIMIT / 2
    ensures |Encode(first, v, prefix)| <= MAX_INTEGER_SIZE
  {
    if v >= Mask(prefix) {
      NineAndTenDigits();
      DigitsLength(v - Mask(prefix), 9);
    }
  }

  /** Read the integer at `pos`; `end` is the position after it. */
  method DecodeAt(data: seq<byte>, pos: nat, prefix: nat) returns (r: Result<nat>, end: nat)
    requires pos < |data| && IsPrefix(prefix)
    ensures r.Err? ==> Decode(data[pos..], prefix) == Err(r.fault)
    ensures r.Ok? ==> end > pos && Decode(data[pos..], prefix) == Ok(Decoded(r.value, end - pos))
  {
    var mask := Mask(prefix);
    var firstByte := LowBits(data[pos], prefix);
    if firstByte < mask {
      return Ok(firstByte), pos + 1;
    }
    end := pos + 1;
    var amount: nat := 0;
    var result: nat := firstByte;
    assert data[pos..][1..] == data[end..];
    while true
      invariant pos < end <= |data|
      invariant Decode(data[pos..], prefix) == DecodeDigits(data[end..], amount, result, end - pos)
      decreases |data| - end
    {
      if end >= |data| {
        return Err(Truncated), end;
      }
      var next := data[end];
      assert data[end..][0] == next && data[end..][1..] == data[end + 1..];
      end := end + 1;
      if amount / 8 >= 7 {
        return Err(TooBig), end;
      }
      if amount >= 32 || Shl(next % 0x80, amount) >= INT_LIMIT {
        return Err(Undefined), end;
      }
      result := result + Shl(next % 0x80, amount);
      if next < 0x80 {
        break;
      }
      amount := amount + 7;
    }
    r := Ok(result);
  }

  /** Write the integer from `out[at]` on. The failure return of the source,
      for more than ten continuation bytes, cannot be reached. */
  method EncodeAt(out: array<byte>, at: nat, input: nat, prefix: nat) returns (idx: nat)
    requires at < out.Length && HasRoom(out[at], prefix) && input < UINT64_LIMIT
    requires at + |Encode(out[at], input, prefix)| <= out.Length
    modifies out
    ensures idx == |Encode(old(out[at]), input, prefix)| <= MAX_INTEGER_SIZE + 1
    ensures Wrote(out, old(out[..]), at, Encode(old(out[at]), input, prefix), idx)
  {
    FillLowBits(out[at], Mask(prefix), prefix);
    idx := EncodeAfterAt(out, at, input, Mask(prefix));
  }

  method EncodeAfterAt(out: array<byte>, at: nat, input: nat, mask: nat) returns (idx: nat)
    requires at < out.Length && out[at] + mask < 256 && input < UINT64_LIMIT
    requires at + |EncodeAfter(out[at], input, mask)| <= out.Length
    modifies out
    ensures idx == |EncodeAfter(old(out[at]), input, mask)| <= MAX_INTEGER_SIZE + 1
    ensures Wrote(out, old(out[..]), at, EncodeAfter(old(out[at]), input, mask), idx)
  {
    if input < mask {
      PutByte(out, at, out[at] + input);
      idx := 1;
    } else {
      idx := EncodeFullAt(out, at, out[at] + mask, input - mask);
    }
  }

  /** A full prefix and the digits behind it. */
  method EncodeFullAt(out: array<byte>, at: nat, full: byte, rest: nat) returns (idx: nat)
    requires rest < UINT64_LIMIT && at + 1 + |Digits(rest)| <= out.Length
    modifies out
    ensures idx == 1 + |Digits(rest)| <= MAX_INTEGER_SIZE + 1
    ensures Wrote(out, old(out[..]), at, [full] + Digits(rest), idx)
  {
    ghost var before := out[..];
    PutByte(out, at, full);
    idx := EncodeDigitsAt(out, at + 1, rest);
    WroteBehind(out, before, at, full, Digits(rest));
    idx := idx + 1;
  }

  method EncodeDigitsAt(out: array<byte>, at: nat, input: nat) returns (idx: nat)
    requires input < UINT64_LIMIT && at + |Digits(input)| <= out.Length
    modifies out
    ensures idx == |Digits(input)| <= MAX_INTEGER_SIZE
    ensures Wrote(out, old(out[..]), at, Digits(input), idx)
  {
    ghost var before := out[..];
    ghost var digits := Digits(input);
    assert |digits| <= MAX_INTEGER_SIZE by {
      NineAndTenDigits();
      DigitsLength(input, 10);
    }
    var value := input;
    idx := 0;
    while value >= 0x80
      invariant idx < |digits| && digits[idx..] == Digits(value)
      invariant Wrote(out, before, at, digits, idx)
      decreases value
    {
      assert idx + 1 <= MAX_INTEGER_SIZE;
      assert digits[idx] == digits[idx..][0] && digits[idx..][1..] == digits[idx + 1..];
      out[at + idx] := 0x80 + value % 0x80;
      idx := idx + 1;
      value := value / 0x80;
    }
    assert digits[idx] == digits[idx..][0];
    out[at + idx] := value;
    idx := idx + 1;
  }
}
