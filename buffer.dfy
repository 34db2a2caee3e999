/** The growable output buffer that `rle_compress` and `rle_decompress`
    fill: the triple (`*out_buf`, `out_size`, `out_cap`) and the doubling
    helper `ensure_capacity` (src/rle.c:23-35). */
module Buffer {
  import opened Bytes

  /** One step of the doubling loop: the capacity at least doubles until it
      saturates at SIZE_MAX, and never goes past it. */
  function Doubled(c: nat): (r: nat)
    ensures c <= SIZE_MAX ==> r <= SIZE_MAX
    ensures 1 <= c ==> c < r || r == SIZE_MAX
    ensures r <= 2 * c || r == SIZE_MAX
  {
    if c < SIZE_MAX / 2 then c * 2 else SIZE_MAX
  }

  /** The capacity the doubling loop of ensure_capacity settles on when it
      starts from `c`, or None when it saturates at SIZE_MAX below `needed`.
      The result is the first value of the sequence c, 2c, 4c, ... (cut off
      at SIZE_MAX) that reaches `needed`. */
  function GrownCapacity(c: nat, needed: nat): (r: Option<nat>)
    requires 1 <= c <= SIZE_MAX
    ensures r.Some? <==> needed <= SIZE_MAX || needed <= c
    ensures r.Some? ==> needed <= r.value && c <= r.value && r.value <= SIZE_MAX
    ensures r.Some? ==> r.value == c || r.value < 2 * needed
    ensures r.Some? ==> r.value == SIZE_MAX || exists k :: r.value == c * Pow2(k)
    decreases SIZE_MAX - c
  {
    if needed <= c then
      assert c == c * Pow2(0);
      Some(c)
    else
      var n := Doubled(c);
      if n == SIZE_MAX && n < needed then None
      else
        var r := GrownCapacity(n, needed);
        assert r.Some? && r.value != SIZE_MAX ==> exists k :: r.value == c * Pow2(k) by {
          if r.Some? && r.value != SIZE_MAX {
            var k :| r.value == n * Pow2(k);
            DoubledScale(c, n, k);
          }
        }
        r
  }

  /** `n * 2^k` is `c * 2^(k+1)` when `n` is `2c`. */
  lemma DoubledScale(c: nat, n: nat, k: nat)
    requires n == 2 * c
    ensures n * Pow2(k) == c * Pow2(k + 1)
  {
    assert Pow2(k + 1) == 2 * Pow2(k);
  }

  /** A byte buffer whose capacity is the length of its array. */
  class ByteBuffer {
    /** `*out_buf`; its length is `out_cap`. */
    var data: array<uint8>
    /** `out_size`: the number of bytes written so far. */
    var size: nat

    ghost predicate Valid()
      reads this
    {
      size <= data.Length <= SIZE_MAX
    }

    /** The bytes written so far. */
    function Contents(): (s: seq<uint8>)
      reads this, data
      requires Valid()
      ensures |s| == size
    {
      data[..size]
    }

    /** The buffer before the first block: no bytes and no capacity
        (`out_buf = NULL`, `out_size = out_cap = 0`). */
    constructor ()
      ensures Valid() && fresh(data)
      ensures data.Length == 0 && Contents() == []
    {
      data := new uint8[0];
      size := 0;
    }

    /** `ensure_capacity(&buf, &cap, needed)`. With capacity enough already,
        nothing changes. Otherwise the capacity is doubled from the current
        one (64 for an empty buffer) until it reaches `needed`; the call fails,
        changing nothing, when the doubling saturates at SIZE_MAX below it. On
        success the contents are carried over to the larger array. */
    method EnsureCapacity(needed: nat) returns (ok: bool)
      requires Valid()
      modifies this
      ensures Valid() && size == old(size)
      ensures Contents() == old(Contents())
      ensures ok <==> needed <= old(data.Length) || needed <= SIZE_MAX
      ensures ok ==> needed <= data.Length
      ensures old(data.Length) <= data.Length
      ensures !ok || needed <= old(data.Length) ==> data == old(data)
      ensures ok && old(data.Length) < needed ==>
        fresh(data) && Some(data.Length) == GrownCapacity(if old(data.Length) == 0 then 64 else old(data.Length), needed)
    {
      if needed <= data.Length {
        return true;
      }
      var newCap := if data.Length == 0 then 64 else data.Length;
      while newCap < needed
        invariant 1 <= newCap <= SIZE_MAX
        invariant GrownCapacity(newCap, needed) == GrownCapacity(if data.Length == 0 then 64 else data.Length, needed)
        decreases SIZE_MAX - newCap
      {
        newCap := if newCap < SIZE_MAX / 2 then newCap * 2 else SIZE_MAX;
        if newCap == SIZE_MAX && newCap < needed {
          return false;
        }
      }
      // realloc: a larger array holding the old bytes
      var grown := new uint8[newCap];
      forall k | 0 <= k < data.Length {
        grown[k] := data[k];
      }
      data := grown;
      ok := true;
    }

    /** `(*out_buf)[out_size++] = b`. */
    method Push(b: uint8)
      requires Valid() && size < data.Length
      modifies this, data
      ensures Valid() && data == old(data)
      ensures Contents() == old(Contents()) + [b]
    {
      data[size] := b;
      size := size + 1;
    }

    /** `memset(*out_buf + out_size, v, n); out_size += n`. */
    method Fill(v: uint8, n: nat)
      requires Valid() && size + n <= data.Length
      modifies this, data
      ensures Valid() && data == old(data)
      ensures Contents() == old(Contents()) + Repeat(v, n)
    {
      forall k | size <= k < size + n {
        data[k] := v;
      }
      size := size + n;
    }

    /** `memcpy(*out_buf + out_size, src + from, n); out_size += n`. */
    method Append(src: seq<uint8>, from: nat, n: nat)
      requires Valid() && size + n <= data.Length
      requires from + n <= |src|
      modifies this, data
      ensures Valid() && data == old(data)
      ensures Contents() == old(Contents()) + src[from..from + n]
    {
      forall k | size <= k < size + n {
        data[k] := src[from + k - size];
      }
      size := size + n;
    }
  }
}
