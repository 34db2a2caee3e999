/** `rle_compress` and `rle_decompress` (src/rle.c:37-134): one pass over
    the input with an index, appending to a growable buffer. Each method is
    proved to produce what the functions of module RleFormat describe. */
module Codec {
  import opened Bytes
  import opened Buffer
  import opened RleFormat

  /** The run scan at `i` (src/rle.c:50-53, and again at 72-73): counts the
      bytes equal to `x[i]` from `i` on, stopping at 128. */
  method MeasureRun(x: seq<uint8>, i: nat) returns (r: nat)
    requires i < |x|
    ensures r == RunLength(x, i)
  {
    r := 1;
    while i + r < |x| && x[i + r] == x[i] && r < MAX_BLOCK
      invariant 1 <= r <= MAX_BLOCK && i + r <= |x|
      invariant RunFrom(x, i, r) == RunLength(x, i)
      decreases MAX_BLOCK - r
    {
      r := r + 1;
    }
  }

  /** The literal scan at `i` (src/rle.c:66-77): takes bytes until 128 are
      taken, the input ends, or a run of two or more starts at the next one. */
  method MeasureLiteral(x: seq<uint8>, i: nat) returns (litLen: nat)
    requires i < |x|
    ensures litLen == LiteralLength(x, i)
  {
    litLen := 1;
    var j := i + 1;
    while j < |x| && litLen < MAX_BLOCK
      invariant j == i + litLen && j <= |x| && 1 <= litLen <= MAX_BLOCK
      invariant LiteralFrom(x, i, litLen) == LiteralLength(x, i)
      decreases MAX_BLOCK - litLen
    {
      var r := MeasureRun(x, j);
      if r >= 2 {
        break;
      }
      litLen := litLen + 1;
      j := j + 1;
    }
  }

  /** Appends the run block of `n` copies of `v` (src/rle.c:56-63), after
      making room for its two bytes; fails, changing nothing, when the
      buffer cannot grow that far. */
  method EmitRun(buf: ByteBuffer, n: nat, v: uint8) returns (ok: bool)
    requires buf.Valid() && 1 <= n <= MAX_BLOCK
    modifies buf, buf.data
    ensures buf.Valid()
    ensures ok <==> old(buf.size) + 2 <= old(buf.data.Length) || old(buf.size) + 2 <= SIZE_MAX
    ensures ok ==> buf.Contents() == old(buf.Contents()) + Serialize(Run(n, v))
    ensures !ok ==> buf.Contents() == old(buf.Contents())
    ensures buf.data == old(buf.data) || fresh(buf.data)
  {
    ok := buf.EnsureCapacity(buf.size + 2);
    if !ok {
      return;
    }
    ghost var before := buf.Contents();
    buf.Push(0x80 + (n - 1));
    buf.Push(v);
    ConcatAssoc(before, [0x80 + (n - 1)], [v]);
    assert [0x80 + (n - 1)] + [v] == Serialize(Run(n, v));
  }

  /** Appends the literal block of `x[from..from + n]` (src/rle.c:78-86),
      after making room for its `1 + n` bytes; fails, changing nothing, when
      the buffer cannot grow that far. */
  method EmitLiteral(buf: ByteBuffer, x: seq<uint8>, from: nat, n: nat) returns (ok: bool)
    requires buf.Valid() && 1 <= n <= MAX_BLOCK && from + n <= |x|
    modifies buf, buf.data
    ensures buf.Valid()
    ensures ok <==> old(buf.size) + 1 + n <= old(buf.data.Length) || old(buf.size) + 1 + n <= SIZE_MAX
    ensures ok ==> buf.Contents() == old(buf.Contents()) + Serialize(Literal(x[from..from + n]))
    ensures !ok ==> buf.Contents() == old(buf.Contents())
    ensures buf.data == old(buf.data) || fresh(buf.data)
  {
    ok := buf.EnsureCapacity(buf.size + 1 + n);
    if !ok {
      return;
    }
    ghost var before := buf.Contents();
    buf.Push(n - 1);
    buf.Append(x, from, n);
    ConcatAssoc(before, [n - 1], x[from..from + n]);
  }

  /** One pass of the main loop of `rle_compress` (src/rle.c:48-89): the
      block that starts at `i` is measured and appended, and `next` is where
      the following block starts. */
  method EmitBlock(buf: ByteBuffer, x: seq<uint8>, i: nat) returns (ok: bool, next: nat)
    requires buf.Valid() && i < |x|
    modifies buf, buf.data
    ensures buf.Valid()
    ensures buf.data == old(buf.data) || fresh(buf.data)
    ensures next == NextStart(x, i)
    ensures ok <==> old(buf.size) + |Serialize(NextBlock(x, i))| <= old(buf.data.Length)
                    || old(buf.size) + |Serialize(NextBlock(x, i))| <= SIZE_MAX
    ensures ok ==> buf.Contents() == old(buf.Contents()) + Serialize(NextBlock(x, i))
    ensures !ok ==> buf.Contents() == old(buf.Contents())
  {
    var runLen := MeasureRun(x, i);
    if runLen >= 2 {
      RunBlockAt(x, i);
      ghost var b := Run(runLen, x[i]);
      assert NextBlock(x, i) == b;
      ok := EmitRun(buf, runLen, x[i]);
      next := i + runLen;
    } else {
      LiteralBlockAt(x, i);
      var litLen := MeasureLiteral(x, i);
      ghost var b := Literal(x[i..i + litLen]);
      assert NextBlock(x, i) == b;
      ok := EmitLiteral(buf, x, i, litLen);
      next := i + litLen;
    }
  }

  /** Writing the block at `from` after `done` moves it from what is still
      to be written to what is written. */
  lemma EmitStep(done: seq<uint8>, x: seq<uint8>, from: nat, written: seq<uint8>, i: nat)
    requires from < |x|
    requires written == done + Serialize(NextBlock(x, from))
    requires i == NextStart(x, from)
    ensures written + EncodedFrom(x, i) == done + EncodedFrom(x, from)
  {
    EncodedFromStep(x, from);
    ConcatAssoc(done, Serialize(NextBlock(x, from)), EncodedFrom(x, i));
  }

  /** When what is written and the block at `from` do not fit in SIZE_MAX
      bytes, neither does the whole stream. */
  lemma TooLong(done: seq<uint8>, x: seq<uint8>, from: nat)
    requires from < |x| && done + EncodedFrom(x, from) == EncodedFrom(x, 0)
    requires |done| + |Serialize(NextBlock(x, from))| > SIZE_MAX
    ensures |Encoded(x)| > SIZE_MAX
  {
    EncodedFromStep(x, from);
  }

  /** A pass of the main loop of `rle_compress` seen from the whole stream:
      it keeps "what is written, then what is still to be written, is the
      stream", or finds that the stream does not fit in SIZE_MAX bytes. */
  method EncodeStep(buf: ByteBuffer, x: seq<uint8>, i: nat) returns (ok: bool, next: nat)
    requires buf.Valid() && i < |x|
    requires buf.Contents() + EncodedFrom(x, i) == EncodedFrom(x, 0)
    modifies buf, buf.data
    ensures buf.Valid()
    ensures buf.data == old(buf.data) || fresh(buf.data)
    ensures i < next <= |x|
    ensures ok ==> buf.Contents() + EncodedFrom(x, next) == EncodedFrom(x, 0)
    ensures !ok ==> |Encoded(x)| > SIZE_MAX
  {
    ghost var done := buf.Contents();
    ok, next := EmitBlock(buf, x, i);
    if ok {
      EmitStep(done, x, i, buf.Contents(), next);
    } else {
      TooLong(done, x, i);
    }
  }

  /** `rle_compress`: the encoded stream of `x`. Empty input gives empty
      output. The output buffer grows through ensure_capacity; the call
      gives up, returning nothing, only when the stream would not fit in
      SIZE_MAX bytes. */
  method Compress(x: seq<uint8>) returns (out: seq<uint8>)
    ensures out == if |Encoded(x)| <= SIZE_MAX then Encoded(x) else []
  {
    if |x| == 0 {
      return [];
    }
    var buf := new ByteBuffer();
    var i := 0;
    assert [] + EncodedFrom(x, 0) == EncodedFrom(x, 0);
    while i < |x|
      invariant i <= |x|
      invariant fresh(buf) && fresh(buf.data) && buf.Valid()
      invariant buf.Contents() + EncodedFrom(x, i) == EncodedFrom(x, 0)
      decreases |x| - i
    {
      var ok;
      ok, i := EncodeStep(buf, x, i);
      if !ok {
        return [];
      }
    }
    assert buf.Contents() + [] == buf.Contents();
    out := buf.Contents();
  }

  /** What is left of a decoding that has written `done` and has `rest` still
      to read: the whole output, provided `rest` is well formed and the
      output fits in SIZE_MAX bytes (the most ensure_capacity can grant). */
  ghost function Resume(done: seq<uint8>, rest: seq<uint8>): Option<seq<uint8>>
  {
    match Decode(rest)
    case None => None
    case Some(t) => if |done| + |t| <= SIZE_MAX then Some(done + t) else None
  }

  /** Before anything is written, Resume is the decoded stream, when it fits. */
  lemma ResumeStart(s: seq<uint8>)
    ensures Resume([], s) == if Decode(s).Some? && |Decode(s).value| <= SIZE_MAX then Decode(s) else None
  {
    if Decode(s).Some? {
      assert [] + Decode(s).value == Decode(s).value;
    }
  }

  /** Reading the block at the front of `rest` moves what it stands for from
      what is left to read to what is written. */
  lemma ResumeHead(done: seq<uint8>, rest: seq<uint8>)
    requires rest != [] && HeadLength(rest) <= |rest|
    ensures Resume(done, rest) == Resume(done + Expand(HeadBlock(rest)), rest[HeadLength(rest)..])
  {
    match ParseBlocks(rest[HeadLength(rest)..])
    case None =>
    case Some(bs) =>
      ExpandAllCons(HeadBlock(rest), bs);
      ConcatAssoc(done, Expand(HeadBlock(rest)), ExpandAll(bs));
  }

  /** Reading the run block at `s[i]`. */
  lemma ResumeRun(done: seq<uint8>, s: seq<uint8>, i: nat, next: nat)
    requires i + 2 <= |s| && IsRunControl(s[i]) && next == i + 2
    ensures Resume(done, s[i..]) == Resume(done + Repeat(s[i + 1], ControlLength(s[i])), s[next..])
  {
    var rest := s[i..];
    assert HeadLength(rest) == 2;
    assert Expand(HeadBlock(rest)) == Repeat(s[i + 1], ControlLength(s[i]));
    assert rest[HeadLength(rest)..] == s[next..];
    ResumeHead(done, rest);
  }

  /** Reading the literal block at `s[i]`. */
  lemma ResumeLiteral(done: seq<uint8>, s: seq<uint8>, i: nat, next: nat)
    requires i < |s| && !IsRunControl(s[i]) && next == i + 1 + ControlLength(s[i]) && next <= |s|
    ensures Resume(done, s[i..]) == Resume(done + s[i + 1..next], s[next..])
  {
    var rest := s[i..];
    assert HeadLength(rest) == next - i;
    assert Expand(HeadBlock(rest)) == s[i + 1..next];
    assert rest[HeadLength(rest)..] == s[next..];
    ResumeHead(done, rest);
  }

  /** A block cut short by the end of the stream makes the whole stream
      malformed. */
  lemma ResumeCut(done: seq<uint8>, s: seq<uint8>, i: nat)
    requires i < |s|
    requires if IsRunControl(s[i]) then i + 2 > |s| else i + 1 + ControlLength(s[i]) > |s|
    ensures Resume(done, s[i..]) == None
  {
  }

  /** One pass of the main loop of `rle_decompress` (src/rle.c:99-130):
      reads the block at `s[i]` and appends what it stands for; `next` is
      where the following block starts. Fails when the block is cut short
      by the end of the stream or the output cannot grow that far; then the
      whole stream has no result. */
  method DecodeBlock(buf: ByteBuffer, s: seq<uint8>, i: nat) returns (ok: bool, next: nat)
    requires buf.Valid() && i < |s|
    modifies buf, buf.data
    ensures buf.Valid()
    ensures buf.data == old(buf.data) || fresh(buf.data)
    ensures i < next <= |s|
    ensures ok ==> Resume(buf.Contents(), s[next..]) == Resume(old(buf.Contents()), s[i..])
    ensures !ok ==> Resume(old(buf.Contents()), s[i..]) == None
  {
    var ctrl := s[i];
    if ctrl >= 0x80 {
      ok, next := DecodeRun(buf, s, i);
    } else {
      ok, next := DecodeLiteral(buf, s, i);
    }
  }

  /** The run branch (src/rle.c:100-115): `ctrl & 0x7F` plus one copies of
      the byte after the control byte. */
  method DecodeRun(buf: ByteBuffer, s: seq<uint8>, i: nat) returns (ok: bool, next: nat)
    requires buf.Valid() && i < |s| && IsRunControl(s[i])
    modifies buf, buf.data
    ensures buf.Valid()
    ensures buf.data == old(buf.data) || fresh(buf.data)
    ensures i < next <= |s|
    ensures ok ==> Resume(buf.Contents(), s[next..]) == Resume(old(buf.Contents()), s[i..])
    ensures !ok ==> Resume(old(buf.Contents()), s[i..]) == None
  {
    ghost var done := buf.Contents();
    var len := s[i] - 0x80 + 1;
    var j := i + 1;
    if j >= |s| {
      // malformed: the value byte is missing
      ResumeCut(done, s, i);
      return false, |s|;
    }
    var val := s[j];
    next := j + 1;
    ResumeRun(done, s, i, next);
    ok := buf.EnsureCapacity(buf.size + len);
    if ok {
      buf.Fill(val, len);
    }
  }

  /** The literal branch (src/rle.c:115-130): the `ctrl + 1` bytes after the
      control byte, verbatim. */
  method DecodeLiteral(buf: ByteBuffer, s: seq<uint8>, i: nat) returns (ok: bool, next: nat)
    requires buf.Valid() && i < |s| && !IsRunControl(s[i])
    modifies buf, buf.data
    ensures buf.Valid()
    ensures buf.data == old(buf.data) || fresh(buf.data)
    ensures i < next <= |s|
    ensures ok ==> Resume(buf.Contents(), s[next..]) == Resume(old(buf.Contents()), s[i..])
    ensures !ok ==> Resume(old(buf.Contents()), s[i..]) == None
  {
    ghost var done := buf.Contents();
    var len := s[i] + 1;
    var j := i + 1;
    if j + len > |s| {
      // malformed: the literal runs past the end
      ResumeCut(done, s, i);
      return false, |s|;
    }
    next := j + len;
    ResumeLiteral(done, s, i, next);
    ok := buf.EnsureCapacity(buf.size + len);
    if ok {
      buf.Append(s, j, len);
    }
  }

  /** `rle_decompress`: the decoded stream of `s`, or None when `s` is
      malformed (a run control byte with no value byte after it, a literal
      that runs past the end) or its output would not fit in SIZE_MAX bytes.
      The C function collapses None and an empty result into the return value 0. */
  method Decompress(s: seq<uint8>) returns (r: Option<seq<uint8>>)
    ensures r.Some? <==> Decode(s).Some? && |Decode(s).value| <= SIZE_MAX
    ensures r.Some? ==> r == Decode(s)
  {
    ResumeStart(s);
    var buf := new ByteBuffer();
    var i := 0;
    assert s[0..] == s;
    while i < |s|
      invariant i <= |s|
      invariant fresh(buf) && fresh(buf.data) && buf.Valid()
      invariant Resume(buf.Contents(), s[i..]) == Resume([], s)
      decreases |s| - i
    {
      var ok;
      ok, i := DecodeBlock(buf, s, i);
      if !ok {
        return None;
      }
    }
    assert Decode(s[i..]) == Some([]);
    assert buf.Contents() + [] == buf.Contents();
    r := Some(buf.Contents());
  }
}
