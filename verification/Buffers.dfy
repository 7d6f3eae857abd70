/** Writing into a byte buffer at an offset. */
module Buffers {
  import opened Wrappers

  /** Byte `k` of a buffer that held `before`, once the first `n` of `bytes`
      are written from `at` on. */
  ghost function Written(before: Str, at: nat, bytes: Str, n: nat, k: nat): byte
    requires n <= |bytes| && at + n <= |before| && k < |before|
  {
    if at <= k < at + n then bytes[k - at] else before[k]
  }

  ghost predicate Wrote(out: array<byte>, before: Str, at: nat, bytes: Str, n: nat)
    reads out
  {
    && |before| == out.Length && n <= |bytes| && at + n <= |before|
    && forall k | 0 <= k < out.Length :: out[k] == Written(before, at, bytes, n, k)
  }

  method PutByte(out: array<byte>, at: nat, b: byte)
    requires at < out.Length
    modifies out
    ensures out[..] == old(out[..])[at := b]
    ensures Wrote(out, old(out[..]), at, [b], 1)
  {
    out[at] := b;
  }

  /** memcpy into the buffer. */
  method CopyInto(out: array<byte>, at: nat, bytes: Str)
    requires at + |bytes| <= out.Length
    modifies out
    ensures Wrote(out, old(out[..]), at, bytes, |bytes|)
  {
    ghost var before := out[..];
    for i := 0 to |bytes|
      invariant Wrote(out, before, at, bytes, i)
    {
      out[at + i] := bytes[i];
    }
  }

  /** One byte, then the bytes behind it. */
  lemma WroteBehind(out: array<byte>, before: Str, at: nat, b: byte, bytes: Str)
    requires at < |before| && Wrote(out, before[at := b], at + 1, bytes, |bytes|)
    ensures Wrote(out, before, at, [b] + bytes, 1 + |bytes|)
  {
    forall k | 0 <= k < out.Length
      ensures out[k] == Written(before, at, [b] + bytes, 1 + |bytes|, k)
    {
      assert out[k] == Written(before[at := b], at + 1, bytes, |bytes|, k);
    }
  }

  /** Bytes written right behind bytes written before. */
  lemma WroteMore(out: array<byte>, before: Str, between: Str, at: nat, first: Str, second: Str)
    requires |between| == |before| && at + |first| + |second| <= |before|
    requires forall k | 0 <= k < |before| :: between[k] == Written(before, at, first, |first|, k)
    requires Wrote(out, between, at + |first|, second, |second|)
    ensures Wrote(out, before, at, first + second, |first + second|)
  {
    forall k | 0 <= k < out.Length
      ensures out[k] == Written(before, at, first + second, |first + second|, k)
    {
      assert out[k] == Written(between, at + |first|, second, |second|, k);
    }
  }

  /** A buffer filled up to `at` and written on is filled further. */
  lemma FilledFurther(out: array<byte>, before: Str, at: nat, bytes: Str)
    requires Wrote(out, before, at, bytes, |bytes|)
    ensures out[..at + |bytes|] == before[..at] + bytes
  {
  }
}
