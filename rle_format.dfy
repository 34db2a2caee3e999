/** The encoded stream of the RLE codec, as values: its two kinds of block,
    their byte layout, what they decode to, the decoder's reading of a byte
    stream (src/rle.c:93-134) and the encoder's greedy choice of blocks
    (src/rle.c:37-91). The methods in module Codec are proved against these
    functions. */
module RleFormat {
  import opened Bytes

  /** The seven-bit length field caps every block at 128 bytes. */
  const MAX_BLOCK: nat := 128

  /** A block length the seven-bit field can announce. */
  type BlockLength = n: nat | 1 <= n <= MAX_BLOCK witness 1

  /** The bytes of a literal block: one to 128 of them. */
  type LiteralBytes = s: seq<uint8> | 1 <= |s| <= MAX_BLOCK witness [0]

  /** A run block stands for `count` copies of `value`; a literal block for
      its bytes, verbatim. Both lengths fit the control byte's seven-bit
      field, so every block has a layout the decoder reads back. */
  datatype Block = Run(count: BlockLength, value: uint8) | Literal(bytes: LiteralBytes)

  // ---------------------------------------------------------------------
  // Control bytes

  /** `ctrl & 0x80`: the high bit marks a run block. */
  predicate IsRunControl(c: uint8)
  {
    c >= 0x80
  }

  /** The block length a control byte announces: `(ctrl & 0x7F) + 1` for a
      run, `ctrl + 1` for a literal. */
  function ControlLength(c: uint8): (n: nat)
    ensures 1 <= n <= MAX_BLOCK
  {
    if IsRunControl(c) then c - 0x80 + 1 else c + 1
  }

  /** The arithmetic above is the bit arithmetic of the C code:
      `ctrl & 0x80`, `ctrl & 0x7F` and `0x80 | (len - 1)`. */
  lemma ControlBitsAgree(c: bv8, len: bv8)
    requires 1 <= len as int <= MAX_BLOCK
    ensures (c & 0x80 != 0) == IsRunControl(c as int)
    ensures IsRunControl(c as int) ==> (c & 0x7F) as int + 1 == ControlLength(c as int)
    ensures (0x80 | (len - 1)) as int == 0x80 + (len as int - 1)
  {
    HighBit(c);
    LowBits(c);
    SetHighBit(len - 1);
  }

  lemma HighBit(b: bv8)
    ensures (b & 0x80 != 0) == (b as int >= 0x80)
  {
  }

  /** `b & 0x7F` is `b` with its high bit cleared. */
  lemma LowBits(b: bv8)
    ensures (b & 0x7F) as int == (b as int) % 0x80
  {
    ClearHighBit(b);
    AtLeastHighBit(b);
    if b >= 0x80 {
      LessHighBit(b);
    }
  }

  lemma ClearHighBit(b: bv8)
    ensures b & 0x7F == if b >= 0x80 then b - 0x80 else b
  {
  }

  lemma AtLeastHighBit(b: bv8)
    ensures b >= 0x80 <==> b as int >= 0x80
  {
  }

  lemma LessHighBit(b: bv8)
    requires b >= 0x80
    ensures (b - 0x80) as int == b as int - 0x80
  {
  }

  lemma SetHighBit(b: bv8)
    requires b < 0x80
    ensures ((0x80 as bv8) | b) as int == 0x80 + b as int
  {
    assert 0x80 | b == 0x80 + b;
  }

  // ---------------------------------------------------------------------
  // Blocks, their layout and their meaning

  /** A block the encoder emits: a run repeats its byte at least twice. */
  predicate WellFormed(b: Block)
  {
    b.Run? ==> b.count >= 2
  }

  predicate AllWellFormed(bs: seq<Block>)
  {
    forall k :: 0 <= k < |bs| ==> WellFormed(bs[k])
  }

  /** The bytes of one block: a run is `0x80|(count-1)` and the value, a
      literal is `len-1` and the bytes. */
  function Serialize(b: Block): (s: seq<uint8>)
    ensures |s| >= 2 && ControlLength(s[0]) == Count(b)
    ensures IsRunControl(s[0]) <==> b.Run?
  {
    match b
    case Run(n, v) => [0x80 + (n - 1), v]
    case Literal(bs) => [|bs| - 1] + bs
  }

  function SerializeAll(bs: seq<Block>): seq<uint8>
  {
    if bs == [] then [] else Serialize(bs[0]) + SerializeAll(bs[1..])
  }

  /** The number of bytes a block stands for. */
  function Count(b: Block): (n: nat)
    ensures 1 <= n <= MAX_BLOCK
  {
    match b
    case Run(n, _) => n
    case Literal(bs) => |bs|
  }

  /** What a block decodes to. */
  function Expand(b: Block): (r: seq<uint8>)
    ensures |r| == Count(b)
  {
    match b
    case Run(n, v) => Repeat(v, n)
    case Literal(bs) => bs
  }

  function ExpandAll(bs: seq<Block>): seq<uint8>
  {
    if bs == [] then [] else Expand(bs[0]) + ExpandAll(bs[1..])
  }

  /** The sum of the lengths the control bytes of `bs` announce. */
  function DeclaredLength(bs: seq<Block>): nat
  {
    if bs == [] then 0 else ControlLength(Serialize(bs[0])[0]) + DeclaredLength(bs[1..])
  }

  // ---------------------------------------------------------------------
  // The decoder's reading of a stream

  /** Splits a stream into blocks the way `rle_decompress` reads it: a run
      control byte needs one value byte after it, a literal control byte
      `ctrl + 1` bytes; a stream that ends inside a block is malformed. */
  function ParseBlocks(s: seq<uint8>): Option<seq<Block>>
    decreases |s|
  {
    if s == [] then Some([])
    else if |s| < HeadLength(s) then None
    else match ParseBlocks(s[HeadLength(s)..])
      case None => None
      case Some(rest) => Some([HeadBlock(s)] + rest)
  }

  /** The number of bytes the block at the front of `s` takes: a run
      control byte and its value byte, or a literal control byte and the
      `ctrl + 1` bytes it announces. */
  function HeadLength(s: seq<uint8>): (m: nat)
    requires s != []
    ensures 2 <= m <= 1 + MAX_BLOCK
  {
    if IsRunControl(s[0]) then 2 else 1 + ControlLength(s[0])
  }

  /** The block at the front of `s`, when `s` holds all of it. */
  function HeadBlock(s: seq<uint8>): (b: Block)
    requires s != [] && HeadLength(s) <= |s|
    ensures Serialize(b) == s[..HeadLength(s)]
  {
    if IsRunControl(s[0]) then Run(ControlLength(s[0]), s[1])
    else Literal(s[1..1 + ControlLength(s[0])])
  }

  /** The decoded stream, or None for a malformed one. */
  function Decode(s: seq<uint8>): Option<seq<uint8>>
  {
    match ParseBlocks(s)
    case None => None
    case Some(bs) => Some(ExpandAll(bs))
  }

  // ---------------------------------------------------------------------
  // The encoder's greedy choice of blocks

  /** A run of two or more equal bytes starts at `j`. */
  predicate StartsRun(x: seq<uint8>, j: nat)
  {
    j + 1 < |x| && x[j + 1] == x[j]
  }

  /** The run scan, continued from a run of `r` bytes already seen. */
  function RunFrom(x: seq<uint8>, i: nat, r: nat): (n: nat)
    requires 1 <= r <= MAX_BLOCK && i + r <= |x|
    ensures r <= n <= MAX_BLOCK && i + n <= |x|
    decreases MAX_BLOCK - r
  {
    if i + r < |x| && x[i + r] == x[i] && r < MAX_BLOCK then RunFrom(x, i, r + 1) else r
  }

  /** The length of the run of bytes equal to `x[i]` that starts at `i`,
      cut at 128. It is two or more exactly where a run starts. */
  function RunLength(x: seq<uint8>, i: nat): (n: nat)
    requires i < |x|
    ensures 1 <= n <= MAX_BLOCK && i + n <= |x|
    ensures n >= 2 <==> StartsRun(x, i)
  {
    RunFrom(x, i, 1)
  }

  lemma {:induction false} RunFromMaximal(x: seq<uint8>, i: nat, r: nat)
    requires 1 <= r <= MAX_BLOCK && i + r <= |x|
    requires forall k :: i <= k < i + r ==> x[k] == x[i]
    ensures var n := RunFrom(x, i, r);
      && (forall k :: i <= k < i + n ==> x[k] == x[i])
      && (n == MAX_BLOCK || i + n == |x| || x[i + n] != x[i])
    decreases MAX_BLOCK - r
  {
    if i + r < |x| && x[i + r] == x[i] && r < MAX_BLOCK {
      RunFromMaximal(x, i, r + 1);
    }
  }

  /** The run is the longest stretch of bytes equal to `x[i]` from `i` on,
      or the first 128 of it. */
  lemma RunLengthMaximal(x: seq<uint8>, i: nat)
    requires i < |x|
    ensures forall k :: i <= k < i + RunLength(x, i) ==> x[k] == x[i]
    ensures RunLength(x, i) == MAX_BLOCK || i + RunLength(x, i) == |x|
            || x[i + RunLength(x, i)] != x[i]
  {
    RunFromMaximal(x, i, 1);
  }

  /** The literal scan, continued from `l` bytes already taken. */
  function LiteralFrom(x: seq<uint8>, i: nat, l: nat): (n: nat)
    requires 1 <= l <= MAX_BLOCK && i + l <= |x|
    ensures l <= n <= MAX_BLOCK && i + n <= |x|
    decreases MAX_BLOCK - l
  {
    if i + l < |x| && l < MAX_BLOCK && RunLength(x, i + l) < 2 then LiteralFrom(x, i, l + 1) else l
  }

  /** The length of the literal block that starts at `i`. */
  function LiteralLength(x: seq<uint8>, i: nat): (n: nat)
    requires i < |x|
    ensures 1 <= n <= MAX_BLOCK && i + n <= |x|
  {
    LiteralFrom(x, i, 1)
  }

  lemma {:induction false} LiteralFromStops(x: seq<uint8>, i: nat, l: nat)
    requires 1 <= l <= MAX_BLOCK && i + l <= |x|
    requires forall j :: i < j < i + l ==> !StartsRun(x, j)
    ensures var n := LiteralFrom(x, i, l);
      && (forall j :: i < j < i + n ==> !StartsRun(x, j))
      && (n == MAX_BLOCK || i + n == |x| || StartsRun(x, i + n))
    decreases MAX_BLOCK - l
  {
    if i + l < |x| && l < MAX_BLOCK && RunLength(x, i + l) < 2 {
      LiteralFromStops(x, i, l + 1);
    }
  }

  /** The literal block takes bytes until 128 are taken, the input ends, or
      a run of two or more would start at the next byte; no byte after its
      first starts a run. */
  lemma LiteralLengthStops(x: seq<uint8>, i: nat)
    requires i < |x|
    ensures forall j :: i < j < i + LiteralLength(x, i) ==> !StartsRun(x, j)
    ensures LiteralLength(x, i) == MAX_BLOCK || i + LiteralLength(x, i) == |x|
            || StartsRun(x, i + LiteralLength(x, i))
  {
    LiteralFromStops(x, i, 1);
  }

  /** The block the encoder emits at position `i`: a run block where a run
      of two or more starts, a literal block otherwise. */
  function NextBlock(x: seq<uint8>, i: nat): (b: Block)
    requires i < |x|
    ensures WellFormed(b) && i + Count(b) <= |x|
  {
    var r := RunLength(x, i);
    if r >= 2 then Run(r, x[i]) else Literal(x[i..i + LiteralLength(x, i)])
  }

  /** Where the block after the one at `i` starts. */
  function NextStart(x: seq<uint8>, i: nat): (j: nat)
    requires i < |x|
    ensures i < j <= |x|
  {
    i + Count(NextBlock(x, i))
  }

  /** The block at `i` stands for the next bytes of the input. */
  lemma NextBlockExpands(x: seq<uint8>, i: nat)
    requires i < |x|
    ensures Expand(NextBlock(x, i)) == x[i..NextStart(x, i)]
  {
    if RunLength(x, i) >= 2 {
      RunLengthMaximal(x, i);
      assert Expand(NextBlock(x, i)) == x[i..i + RunLength(x, i)];
    }
  }

  /** The blocks the encoder emits for `x[i..]`, one greedy choice at a time. */
  function EncodeFrom(x: seq<uint8>, i: nat): (bs: seq<Block>)
    requires i <= |x|
    ensures |bs| <= |x| - i
    decreases |x| - i
  {
    if i == |x| then [] else [NextBlock(x, i)] + EncodeFrom(x, NextStart(x, i))
  }

  /** One step of the encoder: the block at `i`, then the blocks after it. */
  lemma EncodeFromCons(x: seq<uint8>, i: nat)
    requires i < |x|
    ensures EncodeFrom(x, i) == [NextBlock(x, i)] + EncodeFrom(x, NextStart(x, i))
  {
  }

  /** The encoder emits well-formed blocks only. */
  lemma {:induction false} EncodeFromWellFormed(x: seq<uint8>, i: nat)
    requires i <= |x|
    ensures AllWellFormed(EncodeFrom(x, i))
    decreases |x| - i
  {
    if i < |x| {
      EncodeFromWellFormed(x, NextStart(x, i));
      WellFormedStep(x, i);
    }
  }

  lemma WellFormedStep(x: seq<uint8>, i: nat)
    requires i < |x|
    requires AllWellFormed(EncodeFrom(x, NextStart(x, i)))
    ensures AllWellFormed(EncodeFrom(x, i))
  {
    EncodeFromCons(x, i);
    ConsWellFormed(NextBlock(x, i), EncodeFrom(x, NextStart(x, i)));
  }

  lemma ConsWellFormed(b: Block, rest: seq<Block>)
    requires WellFormed(b) && AllWellFormed(rest)
    ensures AllWellFormed([b] + rest)
  {
    assert forall k :: 1 <= k <= |rest| ==> ([b] + rest)[k] == rest[k - 1];
  }

  /** The blocks the encoder emits for `x[i..]` decode back to `x[i..]`. */
  lemma {:induction false} EncodeFromFaithful(x: seq<uint8>, i: nat)
    requires i <= |x|
    ensures ExpandAll(EncodeFrom(x, i)) == x[i..]
    decreases |x| - i
  {
    if i < |x| {
      EncodeFromFaithful(x, NextStart(x, i));
      FaithfulStep(x, i);
    }
  }

  lemma FaithfulStep(x: seq<uint8>, i: nat)
    requires i < |x|
    requires ExpandAll(EncodeFrom(x, NextStart(x, i))) == x[NextStart(x, i)..]
    ensures ExpandAll(EncodeFrom(x, i)) == x[i..]
  {
    EncodeFromCons(x, i);
    NextBlockExpands(x, i);
    ExpandStep(x, i, NextBlock(x, i), EncodeFrom(x, NextStart(x, i)));
  }

  lemma ExpandStep(x: seq<uint8>, i: nat, b: Block, rest: seq<Block>)
    requires i + Count(b) <= |x|
    requires Expand(b) == x[i..i + Count(b)] && ExpandAll(rest) == x[i + Count(b)..]
    ensures ExpandAll([b] + rest) == x[i..]
  {
    ExpandAllCons(b, rest);
    assert x[i..] == x[i..i + Count(b)] + x[i + Count(b)..];
  }

  lemma ExpandAllCons(b: Block, rest: seq<Block>)
    ensures ExpandAll([b] + rest) == Expand(b) + ExpandAll(rest)
  {
    assert ([b] + rest)[1..] == rest;
  }

  /** The bytes the encoder writes for `x[i..]`, one block at a time. */
  function EncodedFrom(x: seq<uint8>, i: nat): (s: seq<uint8>)
    requires i <= |x|
    ensures |s| <= 2 * (|x| - i)
    ensures s == [] <==> i == |x|
    decreases |x| - i
  {
    if i == |x| then [] else Serialize(NextBlock(x, i)) + EncodedFrom(x, NextStart(x, i))
  }

  /** The step of EncodedFrom where a block is written. */
  lemma EncodedFromStep(x: seq<uint8>, i: nat)
    requires i < |x|
    ensures EncodedFrom(x, i) == Serialize(NextBlock(x, i)) + EncodedFrom(x, NextStart(x, i))
  {
  }

  /** The bytes EncodedFrom writes are those of the blocks EncodeFrom
      chooses. */
  lemma {:induction false} EncodedFromBlocks(x: seq<uint8>, i: nat)
    requires i <= |x|
    ensures EncodedFrom(x, i) == SerializeAll(EncodeFrom(x, i))
    decreases |x| - i
  {
    if i < |x| {
      EncodedFromBlocks(x, NextStart(x, i));
      EncodedBlocksStep(x, i);
    }
  }

  lemma EncodedBlocksStep(x: seq<uint8>, i: nat)
    requires i < |x|
    requires EncodedFrom(x, NextStart(x, i)) == SerializeAll(EncodeFrom(x, NextStart(x, i)))
    ensures EncodedFrom(x, i) == SerializeAll(EncodeFrom(x, i))
  {
    EncodeFromCons(x, i);
    EncodedFromStep(x, i);
    SerializeAllCons(NextBlock(x, i), EncodeFrom(x, NextStart(x, i)));
  }

  lemma RunBlockAt(x: seq<uint8>, i: nat)
    requires i < |x| && RunLength(x, i) >= 2
    ensures NextBlock(x, i) == Run(RunLength(x, i), x[i])
    ensures Serialize(NextBlock(x, i)) == [0x80 + (RunLength(x, i) - 1), x[i]]
  {
  }

  /** Elsewhere it emits a literal block. */
  lemma LiteralBlockAt(x: seq<uint8>, i: nat)
    requires i < |x| && RunLength(x, i) < 2
    ensures NextBlock(x, i) == Literal(x[i..i + LiteralLength(x, i)])
    ensures Serialize(NextBlock(x, i)) == [LiteralLength(x, i) - 1] + x[i..i + LiteralLength(x, i)]
  {
  }

  function EncodeBlocks(x: seq<uint8>): seq<Block>
  {
    EncodeFrom(x, 0)
  }

  /** The encoded stream `rle_compress` produces: empty exactly for the
      empty input, and never more than twice as long as the input. */
  function Encoded(x: seq<uint8>): (r: seq<uint8>)
    ensures r == [] <==> x == []
    ensures |r| <= 2 * |x|
  {
    EncodedFrom(x, 0)
  }

  // ---------------------------------------------------------------------
  // Properties of the encoder

  /** No two neighbouring bytes are equal. */
  predicate NoAdjacentEqual(s: seq<uint8>)
  {
    forall j :: 0 < j < |s| ==> s[j - 1] != s[j]
  }

  /** If `b` is a literal block, its last byte differs from the first byte
      `next` stands for. */
  predicate StopsBefore(b: Block, next: Block)
  {
    b.Literal? ==> b.bytes[|b.bytes| - 1] != Expand(next)[0]
  }

  /** Every literal block in `bs` has no two equal neighbouring bytes, and its
      last byte differs from the first byte the block after it stands for:
      a literal never swallows the start of a run. */
  predicate LiteralsStopBeforeRuns(bs: seq<Block>)
  {
    bs != [] ==>
      && (bs[0].Literal? ==> NoAdjacentEqual(bs[0].bytes))
      && (|bs| > 1 ==> StopsBefore(bs[0], bs[1]))
      && LiteralsStopBeforeRuns(bs[1..])
  }

  /** The bytes of the literal block at `i` never start a run. */
  lemma LiteralAvoidsRuns(x: seq<uint8>, i: nat)
    requires i < |x| && NextBlock(x, i).Literal?
    ensures forall j :: i <= j < NextStart(x, i) ==> !StartsRun(x, j)
  {
    LiteralLengthStops(x, i);
  }

  /** The encoder never puts two equal neighbouring bytes into one literal
      block, and ends a literal block before any byte that starts a run. */
  lemma {:induction false} EncodeStopsBeforeRuns(x: seq<uint8>, i: nat)
    requires i <= |x|
    ensures LiteralsStopBeforeRuns(EncodeFrom(x, i))
    decreases |x| - i
  {
    if i < |x| {
      EncodeStopsBeforeRuns(x, NextStart(x, i));
      StopsStep(x, i);
    }
  }

  lemma StopsStep(x: seq<uint8>, i: nat)
    requires i < |x|
    requires LiteralsStopBeforeRuns(EncodeFrom(x, NextStart(x, i)))
    ensures LiteralsStopBeforeRuns(EncodeFrom(x, i))
  {
    EncodeFromCons(x, i);
    LiteralInside(x, i);
    LiteralBoundary(x, i);
    ConsStops(EncodeFrom(x, i), NextBlock(x, i), EncodeFrom(x, NextStart(x, i)));
  }

  /** A literal block has no two equal neighbouring bytes. */
  lemma LiteralInside(x: seq<uint8>, i: nat)
    requires i < |x|
    ensures NextBlock(x, i).Literal? ==> NoAdjacentEqual(NextBlock(x, i).bytes)
  {
    if NextBlock(x, i).Literal? {
      var m := Count(NextBlock(x, i));
      LiteralAvoidsRuns(x, i);
      NextBlockExpands(x, i);
      forall j | 0 < j < m ensures NextBlock(x, i).bytes[j - 1] != NextBlock(x, i).bytes[j] {
        assert !StartsRun(x, i + j - 1);
      }
    }
  }

  /** The last byte of a literal block differs from the first byte of the
      block after it. */
  lemma LiteralBoundary(x: seq<uint8>, i: nat)
    requires i < |x|
    ensures EncodeFrom(x, NextStart(x, i)) != [] ==>
      StopsBefore(NextBlock(x, i), EncodeFrom(x, NextStart(x, i))[0])
  {
    if NextBlock(x, i).Literal? && NextStart(x, i) < |x| {
      LiteralLastByte(x, i);
      FirstByte(x, NextStart(x, i));
    }
  }

  /** A literal block ends on a byte that differs from the next input byte. */
  lemma LiteralLastByte(x: seq<uint8>, i: nat)
    requires i < |x| && NextBlock(x, i).Literal? && NextStart(x, i) < |x|
    ensures var n := NextStart(x, i);
      NextBlock(x, i).bytes[|NextBlock(x, i).bytes| - 1] == x[n - 1] != x[n]
  {
    NextBlockExpands(x, i);
    LiteralAvoidsRuns(x, i);
    assert !StartsRun(x, NextStart(x, i) - 1);
  }

  /** The blocks for `x[n..]` start with the byte `x[n]`. */
  lemma FirstByte(x: seq<uint8>, n: nat)
    requires n < |x|
    ensures EncodeFrom(x, n) != [] && Expand(EncodeFrom(x, n)[0])[0] == x[n]
  {
    EncodeFromCons(x, n);
    NextBlockExpands(x, n);
  }

  lemma ConsStops(bs: seq<Block>, b: Block, rest: seq<Block>)
    requires bs == [b] + rest
    requires LiteralsStopBeforeRuns(rest)
    requires b.Literal? ==> NoAdjacentEqual(b.bytes)
    requires rest != [] ==> StopsBefore(b, rest[0])
    ensures LiteralsStopBeforeRuns(bs)
  {
    assert bs[1..] == rest;
  }

  lemma SerializeAllCons(b: Block, rest: seq<Block>)
    ensures SerializeAll([b] + rest) == Serialize(b) + SerializeAll(rest)
  {
    assert ([b] + rest)[1..] == rest;
  }

  // ---------------------------------------------------------------------
  // Properties of the decoder

  /** Reading a block's bytes off the front of a stream yields that block,
      then whatever the rest of the stream yields. */
  lemma ParseBlock(b: Block, t: seq<uint8>)
    ensures ParseBlocks(Serialize(b) + t) ==
      match ParseBlocks(t)
      case None => None
      case Some(rest) => Some([b] + rest)
  {
    var s := Serialize(b) + t;
    match b
    case Run(n, v) =>
      assert s[2..] == t;
    case Literal(bytes) =>
      assert s[1..1 + |bytes|] == bytes;
      assert s[1 + |bytes|..] == t;
  }

  /** The decoder reads back the layout of any list of blocks as exactly
      those blocks. */
  lemma {:induction false} ParseSerialize(bs: seq<Block>)
    ensures ParseBlocks(SerializeAll(bs)) == Some(bs)
  {
    if bs != [] {
      ParseSerialize(bs[1..]);
      ParseBlock(bs[0], SerializeAll(bs[1..]));
      assert [bs[0]] + bs[1..] == bs;
    }
  }

  /** Conversely, what the decoder accepts is the layout of a list of
      blocks, consumed to the last byte. */
  lemma {:induction false} SerializeParse(s: seq<uint8>)
    requires ParseBlocks(s).Some?
    ensures SerializeAll(ParseBlocks(s).value) == s
    decreases |s|
  {
    if s != [] {
      SerializeParse(s[HeadLength(s)..]);
      SerializeParseStep(s);
    }
  }

  lemma SerializeParseStep(s: seq<uint8>)
    requires s != [] && ParseBlocks(s).Some?
    requires SerializeAll(ParseBlocks(s[HeadLength(s)..]).value) == s[HeadLength(s)..]
    ensures SerializeAll(ParseBlocks(s).value) == s
  {
    SerializeAllOfCons(ParseBlocks(s).value, HeadBlock(s), ParseBlocks(s[HeadLength(s)..]).value);
    assert s == s[..HeadLength(s)] + s[HeadLength(s)..];
  }

  lemma SerializeAllOfCons(bs: seq<Block>, b: Block, rest: seq<Block>)
    requires bs == [b] + rest
    ensures SerializeAll(bs) == Serialize(b) + SerializeAll(rest)
  {
    assert bs[1..] == rest;
  }

  /** The decoder accepts a stream exactly when it is the layout of a list
      of blocks, and then yields those blocks. */
  lemma ParseIffSerialize(s: seq<uint8>, bs: seq<Block>)
    ensures ParseBlocks(s) == Some(bs) <==> SerializeAll(bs) == s
  {
    if ParseBlocks(s) == Some(bs) {
      SerializeParse(s);
    }
    if SerializeAll(bs) == s {
      ParseSerialize(bs);
    }
  }

  lemma {:induction false} ExpandAllLength(bs: seq<Block>)
    ensures |ExpandAll(bs)| == DeclaredLength(bs)
  {
    if bs != [] {
      ExpandAllLength(bs[1..]);
    }
  }

  /** A decoded stream is as long as the sum of the lengths its control
      bytes announce. */
  lemma DecodedLength(s: seq<uint8>)
    requires Decode(s).Some?
    ensures ParseBlocks(s).Some?
    ensures |Decode(s).value| == DeclaredLength(ParseBlocks(s).value)
  {
    SerializeParse(s);
    ExpandAllLength(ParseBlocks(s).value);
  }

  /** Whole blocks in front of a malformed stream do not make it well formed. */
  lemma {:induction false} RejectedAfterBlocks(bs: seq<Block>, t: seq<uint8>)
    requires ParseBlocks(t) == None
    ensures ParseBlocks(SerializeAll(bs) + t) == None
  {
    if bs != [] {
      RejectedAfterBlocks(bs[1..], t);
      SerializeAllAppend(bs, t);
      ParseBlock(bs[0], SerializeAll(bs[1..]) + t);
    } else {
      assert SerializeAll(bs) + t == t;
    }
  }

  lemma SerializeAllAppend(bs: seq<Block>, t: seq<uint8>)
    requires bs != []
    ensures SerializeAll(bs) + t == Serialize(bs[0]) + (SerializeAll(bs[1..]) + t)
  {
  }

  /** A stream that ends inside a block is rejected: after any number of
      whole blocks, a run control byte without its value byte, or a literal
      control byte followed by fewer bytes than it announces. */
  lemma DecodeRejectsCutBlock(bs: seq<Block>, b: Block, k: nat)
    requires 0 < k < |Serialize(b)|
    ensures Decode(SerializeAll(bs) + Serialize(b)[..k]) == None
  {
    CutBlockRejected(b, k);
    RejectedAfterBlocks(bs, Serialize(b)[..k]);
  }

  lemma CutBlockRejected(b: Block, k: nat)
    requires 0 < k < |Serialize(b)|
    ensures ParseBlocks(Serialize(b)[..k]) == None
  {
    var cut := Serialize(b)[..k];
    match b
    case Run(n, v) =>
      assert cut == [Serialize(b)[0]];
    case Literal(bytes) =>
      assert |cut| == k && cut[0] == |bytes| - 1;
  }

  // ---------------------------------------------------------------------
  // The round trip

  /** Decoding the encoder's output gives back the input. */
  lemma CodecRoundTrip(x: seq<uint8>)
    ensures Decode(Encoded(x)) == Some(x)
  {
    EncodedFromBlocks(x, 0);
    ParseSerialize(EncodeFrom(x, 0));
    EncodeFromFaithful(x, 0);
    assert x[0..] == x;
  }

  /** The encoder's blocks are well formed, and its literal blocks stop
      before runs. */
  lemma EncodedBlocksShape(x: seq<uint8>)
    ensures AllWellFormed(EncodeBlocks(x))
    ensures LiteralsStopBeforeRuns(EncodeBlocks(x))
    ensures Encoded(x) == SerializeAll(EncodeBlocks(x))
  {
    EncodeFromWellFormed(x, 0);
    EncodeStopsBeforeRuns(x, 0);
    EncodedFromBlocks(x, 0);
  }
}
