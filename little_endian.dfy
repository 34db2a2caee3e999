/** `write_le64` and `read_le64` (src/rle.c:12-20): a 64-bit value as eight
    bytes, least significant first. */
module LittleEndian {
  import opened Bytes

  /** 256 to the power `k`. */
  function Pow256(k: nat): (r: nat)
    ensures r >= 1
  {
    if k == 0 then 1 else 256 * Pow256(k - 1)
  }

  /** `v >> (8 * k)`: `k` shifts right by one byte. */
  function ShiftBytes(v: nat, k: nat): nat
  {
    if k == 0 then v else ShiftBytes(v / 256, k - 1)
  }

  /** Byte `k` of `v`: `(v >> (8 * k)) & 0xFF`. */
  function ByteOf(v: nat, k: nat): uint8
  {
    ShiftBytes(v, k) % 256
  }

  /** The `n`-byte little-endian form of `v`, built a byte at a time from the
      low end: the first byte is `v mod 256`, the rest is the form of `v / 256`. */
  function ToLE(v: nat, n: nat): (r: seq<uint8>)
    ensures |r| == n
  {
    if n == 0 then [] else [v % 256] + ToLE(v / 256, n - 1)
  }

  /** The value of little-endian bytes: the first byte is the least significant. */
  function FromLE(bs: seq<uint8>): (v: nat)
    ensures v < Pow256(|bs|)
  {
    if bs == [] then 0 else bs[0] + 256 * FromLE(bs[1..])
  }

  /** Byte `k` of the little-endian form is `(v >> 8k) & 0xFF`, what
      write_le64 stores at `out[k]`. */
  lemma {:induction false} ToLEByte(v: nat, n: nat, k: nat)
    requires k < n
    ensures ToLE(v, n)[k] == ByteOf(v, k)
    decreases n
  {
    if k > 0 {
      ToLEByte(v / 256, n - 1, k - 1);
    }
  }

  /** Reading back what was written gives the value, when it fits in `n` bytes. */
  lemma {:induction false} FromToLE(v: nat, n: nat)
    requires v < Pow256(n)
    ensures FromLE(ToLE(v, n)) == v
  {
    if n > 0 {
      assert v / 256 < Pow256(n - 1);
      FromToLE(v / 256, n - 1);
      assert ToLE(v, n)[1..] == ToLE(v / 256, n - 1);
    }
  }

  /** Writing back what was read gives the bytes. */
  lemma {:induction false} ToFromLE(bs: seq<uint8>)
    ensures ToLE(FromLE(bs), |bs|) == bs
  {
    if bs != [] {
      var v := FromLE(bs);
      assert v % 256 == bs[0] && v / 256 == FromLE(bs[1..]);
      ToFromLE(bs[1..]);
    }
  }

  /** Appending a byte adds it at the next power of 256, which is what OR-ing
      in `in[k] << 8k` does to a value below `256^k`. */
  lemma {:induction false} FromLESnoc(bs: seq<uint8>, b: uint8)
    ensures FromLE(bs + [b]) == FromLE(bs) + b * Pow256(|bs|)
  {
    if bs != [] {
      var rest := FromLE(bs[1..]);
      var p := Pow256(|bs| - 1);
      assert (bs + [b])[1..] == bs[1..] + [b];
      FromLESnoc(bs[1..], b);
      assert FromLE(bs + [b]) == bs[0] + 256 * (rest + b * p);
      ShiftDistributes(rest, b, p);
    }
  }

  /** Scaling by 256 distributes over the sum. */
  lemma ShiftDistributes(rest: nat, b: nat, p: nat)
    ensures 256 * (rest + b * p) == 256 * rest + b * (256 * p)
  {
  }

  /** `write_le64(out + at, v)`: stores the eight little-endian bytes of `v`
      at `out[at..at + 8]` and changes nothing else. */
  method WriteLE64(out: array<uint8>, at: nat, v: nat)
    requires v < UINT64_LIMIT && at + 8 <= out.Length
    modifies out
    ensures out[at..at + 8] == ToLE(v, 8)
    ensures out[..at] == old(out[..at]) && out[at + 8..] == old(out[at + 8..])
  {
    for i := 0 to 8
      invariant forall k :: 0 <= k < i ==> out[at + k] == ToLE(v, 8)[k]
      invariant forall k :: 0 <= k < out.Length && !(at <= k < at + 8) ==> out[k] == old(out[k])
    {
      ToLEByte(v, 8, i);
      out[at + i] := ShiftBytes(v, i) % 256;
    }
  }

  /** `read_le64(in + at)`: the value of the eight little-endian bytes at
      `in[at..at + 8]`, below 2^64. */
  method ReadLE64(input: seq<uint8>, at: nat) returns (v: nat)
    requires at + 8 <= |input|
    ensures v == FromLE(input[at..at + 8]) && v < UINT64_LIMIT
  {
    v := 0;
    for i := 0 to 8
      invariant v == FromLE(input[at..at + i])
    {
      FromLESnoc(input[at..at + i], input[at + i]);
      assert input[at..at + i] + [input[at + i]] == input[at..at + i + 1];
      v := v + input[at + i] * Pow256(i);
    }
    assert Pow256(8) == UINT64_LIMIT;
  }
}
