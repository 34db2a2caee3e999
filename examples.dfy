/** The inputs of the repository's unit tests (tests/test_rle.c), with the
    blocks the encoder chooses for them and the container mode they get. */
module Examples {
  import opened Bytes
  import opened RleFormat
  import opened Container

  /** In a stretch of equal bytes the run at `i` is what is left, cut at 128. */
  lemma ConstantRunLength(v: uint8, n: nat, i: nat)
    requires i < n
    ensures RunLength(Repeat(v, n), i) == if n - i < MAX_BLOCK then n - i else MAX_BLOCK
  {
    RunLengthMaximal(Repeat(v, n), i);
  }

  /** The block the encoder emits at `i` in a stretch of at least two equal
      bytes: a run of what is left, cut at 128. */
  lemma ConstantBlock(v: uint8, n: nat, i: nat)
    requires i + 2 <= n
    ensures NextBlock(Repeat(v, n), i) == Run(if n - i < MAX_BLOCK then n - i else MAX_BLOCK, v)
  {
    ConstantRunLength(v, n, i);
    RunBlockAt(Repeat(v, n), i);
  }

  /** In a stretch of at least two equal bytes, the encoder emits a run of
      what is left, cut at 128, then the blocks for the bytes after it. */
  lemma ConstantStep(v: uint8, n: nat, i: nat)
    requires i + 2 <= n
    ensures var m := if n - i < MAX_BLOCK then n - i else MAX_BLOCK;
      EncodeFrom(Repeat(v, n), i) == [Run(m, v)] + EncodeFrom(Repeat(v, n), i + m)
  {
    ConstantBlock(v, n, i);
    EncodeFromCons(Repeat(v, n), i);
  }

  /** The last 16 of 400 equal bytes are one run. */
  lemma LongRunLast(v: uint8)
    ensures EncodeFrom(Repeat(v, 400), 384) == [Run(16, v)]
  {
    ConstantBlock(v, 400, 384);
    EncodeFromCons(Repeat(v, 400), 384);
    assert EncodeFrom(Repeat(v, 400), 400) == [];
  }

  /** 400 equal bytes (test_long_run_boundaries uses the value 7): three
      runs of 128 and a run of 16. */
  lemma LongRunSplits(v: uint8)
    ensures EncodeBlocks(Repeat(v, 400)) == [Run(128, v)] + ([Run(128, v)] + ([Run(128, v)] + [Run(16, v)]))
  {
    LongRunLast(v);
    ConstantStep(v, 400, 256);
    ConstantStep(v, 400, 128);
    ConstantStep(v, 400, 0);
  }

  /** In a stretch of at least two equal bytes, the encoder writes the two
      bytes of a run of what is left, cut at 128, then the bytes for the rest. */
  lemma ConstantBytes(v: uint8, n: nat, i: nat)
    requires i + 2 <= n
    ensures var m := if n - i < MAX_BLOCK then n - i else MAX_BLOCK;
      EncodedFrom(Repeat(v, n), i) == [0x80 + (m - 1), v] + EncodedFrom(Repeat(v, n), i + m)
  {
    ConstantBlock(v, n, i);
    EncodedFromStep(Repeat(v, n), i);
  }

  /** Those four blocks are eight bytes. */
  lemma LongRunEncoded(v: uint8)
    ensures Encoded(Repeat(v, 400)) == [0xFF, v] + ([0xFF, v] + ([0xFF, v] + [0x8F, v]))
  {
    assert EncodedFrom(Repeat(v, 400), 400) == [];
    assert [0x8F, v] + [] == [0x8F, v];
    ConstantBytes(v, 400, 384);
    ConstantBytes(v, 400, 256);
    ConstantBytes(v, 400, 128);
    ConstantBytes(v, 400, 0);
  }

  /** Eight bytes are fewer than 400, so the container stores the RLE
      stream. */
  lemma LongRunIsCompressed(v: uint8)
    ensures Packed(Repeat(v, 400)).Success? && Packed(Repeat(v, 400)).value[5] == FLAG_RLE
  {
    var x := Repeat(v, 400);
    LongRunEncoded(v);
    PackSucceeds(x);
    PackLayout(x);
  }

  /** 64 distinct bytes then 192 copies of 0xAA (test_literals_and_runs). */
  function LiteralsThenRun(): (x: seq<uint8>)
    ensures |x| == 256
    ensures forall k :: 0 <= k < 64 ==> x[k] == k
    ensures forall k :: 64 <= k < 256 ==> x[k] == 0xAA
  {
    seq(256, k => if k < 64 then k else 0xAA)
  }

  /** The literal block at the start takes the 64 distinct bytes and stops
      where the run of 0xAA starts. */
  lemma LiteralsThenRunHead()
    ensures NextBlock(LiteralsThenRun(), 0) == Literal(LiteralsThenRun()[..64])
  {
    var x := LiteralsThenRun();
    LiteralLengthStops(x, 0);
    assert forall j :: 0 <= j < 63 ==> !StartsRun(x, j);
    assert !StartsRun(x, 63) && StartsRun(x, 64);
    assert LiteralLength(x, 0) == 64;
    LiteralBlockAt(x, 0);
  }

  /** The 192 copies of 0xAA are a run of 128 and a run of 64. */
  lemma LiteralsThenRunTail()
    ensures NextBlock(LiteralsThenRun(), 64) == Run(128, 0xAA)
    ensures NextBlock(LiteralsThenRun(), 192) == Run(64, 0xAA)
  {
    var x := LiteralsThenRun();
    assert RunLength(x, 64) == 128 by {
      RunLengthMaximal(x, 64);
    }
    RunBlockAt(x, 64);
    assert RunLength(x, 192) == 64 by {
      RunLengthMaximal(x, 192);
    }
    RunBlockAt(x, 192);
  }

  /** One step of the encoder on that input, where the block at `i` is `b`. */
  lemma LiteralsThenRunStep(i: nat, b: Block)
    requires i < 256 && NextBlock(LiteralsThenRun(), i) == b
    ensures EncodeFrom(LiteralsThenRun(), i) == [b] + EncodeFrom(LiteralsThenRun(), i + Count(b))
    ensures |EncodedFrom(LiteralsThenRun(), i)| == |Serialize(b)| + |EncodedFrom(LiteralsThenRun(), i + Count(b))|
  {
    EncodeFromCons(LiteralsThenRun(), i);
    EncodedFromStep(LiteralsThenRun(), i);
  }

  /** One literal block for the 64 distinct bytes, then a run of 128 and a
      run of 64. */
  lemma LiteralsThenRunBlocks()
    ensures EncodeBlocks(LiteralsThenRun()) ==
      [Literal(LiteralsThenRun()[..64])] + ([Run(128, 0xAA)] + [Run(64, 0xAA)])
  {
    LiteralsThenRunHead();
    LiteralsThenRunTail();
    assert EncodeFrom(LiteralsThenRun(), 256) == [];
    LiteralsThenRunStep(192, Run(64, 0xAA));
    assert [Run(64, 0xAA)] + [] == [Run(64, 0xAA)];
    LiteralsThenRunStep(64, Run(128, 0xAA));
    LiteralsThenRunStep(0, Literal(LiteralsThenRun()[..64]));
  }

  /** Those blocks are 69 bytes. */
  lemma LiteralsThenRunLength()
    ensures |Encoded(LiteralsThenRun())| == 69
  {
    LiteralsThenRunHead();
    LiteralsThenRunTail();
    assert |EncodedFrom(LiteralsThenRun(), 256)| == 0;
    LiteralsThenRunStep(192, Run(64, 0xAA));
    LiteralsThenRunStep(64, Run(128, 0xAA));
    LiteralsThenRunStep(0, Literal(LiteralsThenRun()[..64]));
  }

  /** 69 bytes are fewer than the 256 of the input, so the container stores
      the RLE stream. */
  lemma LiteralsThenRunIsCompressed()
    ensures Packed(LiteralsThenRun()).Success? && Packed(LiteralsThenRun()).value[5] == FLAG_RLE
  {
    LiteralsThenRunLength();
    PackSucceeds(LiteralsThenRun());
    PackLayout(LiteralsThenRun());
  }

  /** 257 bytes alternating between 0xFF and 0x00 (test_alternating). */
  function Alternating(): (x: seq<uint8>)
    ensures |x| == 257
    ensures forall k :: 0 <= k < 257 ==> x[k] == if k % 2 == 1 then 0x00 else 0xFF
  {
    seq(257, k => if k % 2 == 1 then 0x00 else 0xFF)
  }

  /** No two neighbours of the alternating input are equal. */
  lemma AlternatingHasNoRuns(j: nat)
    ensures !StartsRun(Alternating(), j)
  {
    if j + 1 < 257 {
      if j % 2 == 0 {
        assert (j + 1) % 2 == 1;
      } else {
        assert (j + 1) % 2 == 0;
      }
    }
  }

  /** So the literal block at `i` takes what is left, cut at 128. */
  lemma AlternatingLiteral(i: nat)
    requires i < 257
    ensures var n := if 257 - i < MAX_BLOCK then 257 - i else MAX_BLOCK;
      NextBlock(Alternating(), i) == Literal(Alternating()[i..i + n])
  {
    var x := Alternating();
    AlternatingHasNoRuns(i);
    LiteralLengthStops(x, i);
    AlternatingHasNoRuns(i + LiteralLength(x, i));
    LiteralBlockAt(x, i);
  }

  /** One step of the encoder on the alternating input. */
  lemma AlternatingStep(i: nat)
    requires i < 257
    ensures var n := if 257 - i < MAX_BLOCK then 257 - i else MAX_BLOCK;
      && EncodeFrom(Alternating(), i) == [Literal(Alternating()[i..i + n])] + EncodeFrom(Alternating(), i + n)
      && |EncodedFrom(Alternating(), i)| == 1 + n + |EncodedFrom(Alternating(), i + n)|
  {
    AlternatingLiteral(i);
    EncodeFromCons(Alternating(), i);
    EncodedFromStep(Alternating(), i);
  }

  /** The alternating input encodes as literal blocks of 128, 128 and 1
      bytes. */
  lemma AlternatingBlocks()
    ensures EncodeBlocks(Alternating()) ==
      [Literal(Alternating()[0..128])] + ([Literal(Alternating()[128..256])] + [Literal(Alternating()[256..257])])
  {
    assert EncodeFrom(Alternating(), 257) == [];
    AlternatingStep(256);
    assert [Literal(Alternating()[256..257])] + [] == [Literal(Alternating()[256..257])];
    AlternatingStep(128);
    AlternatingStep(0);
  }

  /** Those blocks are 260 bytes. */
  lemma AlternatingLength()
    ensures |Encoded(Alternating())| == 260
  {
    assert |EncodedFrom(Alternating(), 257)| == 0;
    AlternatingStep(256);
    AlternatingStep(128);
    AlternatingStep(0);
  }

  /** 260 bytes are more than the 257 of the input, so the container stores
      the input as is. */
  lemma AlternatingIsStored()
    ensures Packed(Alternating()).Success? && Packed(Alternating()).value[5] == 0
  {
    AlternatingLength();
    PackSucceeds(Alternating());
    PackLayout(Alternating());
  }
}
