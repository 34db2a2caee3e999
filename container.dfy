/** The container that `rle_compress_file` writes and `rle_decompress_file`
    reads (src/rle.c:162-233), without the file I/O: a 22-byte header
    ("RLEC", version 1, a flags byte, the original length and the payload
    length as little-endian 64-bit values) followed by the payload, which is
    either the RLE stream (flag bit 0 set) or the input stored as is. */
module Container {
  import opened Bytes
  import opened LittleEndian
  import opened RleFormat
  import opened Codec

  const MAGIC: seq<uint8> := [0x52, 0x4C, 0x45, 0x43]
  const VERSION: uint8 := 1
  const FLAG_RLE: uint8 := 0x01
  const HEADER_SIZE: nat := 22

  /** Why packing or unpacking failed; the C code reports every one as -1. */
  datatype Error =
    | CompressFailed        // rle_compress gave nothing for a non-empty input
    | TooShort              // fewer bytes than a header
    | BadMagic              // the first four bytes are not "RLEC"
    | BadVersion            // byte 4 is not 1
    | LengthMismatch        // 22 + payload length is not the container length
    | StoredSizeMismatch    // stored mode, original length is not the payload length
    | NothingDecoded        // RLE mode, nothing decoded but a non-zero original length
    | DecodedSizeMismatch   // RLE mode, decoded length is not the original length

  /** Bit 0 of the flags byte is `(flags & 0x01) != 0`. */
  lemma FlagBitAgrees(flags: bv8)
    ensures (flags & 0x01 != 0) == (flags as int % 2 == 1)
  {
  }

  /** The header fields in order: magic, version, flags, original length,
      payload length. */
  function Header(flags: uint8, origLen: nat, payloadLen: nat): (h: seq<uint8>)
    ensures |h| == HEADER_SIZE
    ensures h[..4] == MAGIC && h[4] == VERSION && h[5] == flags
    ensures h[6..14] == ToLE(origLen, 8) && h[14..22] == ToLE(payloadLen, 8)
  {
    MAGIC + [VERSION, flags] + ToLE(origLen, 8) + ToLE(payloadLen, 8)
  }

  /** What rle_compress returns for `x` (see Codec.Compress). */
  function Compressed(x: seq<uint8>): (r: seq<uint8>)
    ensures r == [] <==> |x| == 0 || |Encoded(x)| > SIZE_MAX
    ensures r != [] ==> Decode(r) == Some(x)
  {
    CodecRoundTrip(x);
    if |Encoded(x)| <= SIZE_MAX then Encoded(x) else []
  }

  /** The container `rle_compress_file` writes for the input `x`. It fails
      only when compression of a non-empty input gives nothing. The RLE
      payload is chosen exactly when it is non-empty and strictly shorter
      than the input, so the payload is never longer than the input. */
  function Packed(x: seq<uint8>): (r: Result<seq<uint8>, Error>)
    ensures r.Failure? <==> |x| > 0 && |Encoded(x)| > SIZE_MAX
    ensures r.Success? ==> HEADER_SIZE <= |r.value| <= HEADER_SIZE + |x|
  {
    var comp := Compressed(x);
    if |x| > 0 && comp == [] then Failure(CompressFailed)
    else if 0 < |comp| < |x| then Success(Header(FLAG_RLE, |x|, |comp|) + comp)
    else Success(Header(0, |x|, |x|) + x)
  }

  /** What `rle_decompress` leaves for the caller to look at: the decoded
      stream, or no bytes at all when decoding failed (its return value 0). */
  function DecodedOrEmpty(s: seq<uint8>): (out: seq<uint8>)
    ensures out != [] ==> Decode(s) == Some(out) && |out| <= SIZE_MAX
    ensures Decode(s).Some? && |Decode(s).value| <= SIZE_MAX ==> out == Decode(s).value
  {
    match Decode(s)
    case Some(t) => if |t| <= SIZE_MAX then t else []
    case None => []
  }

  /** What `rle_decompress_file` writes for the container `c`: the header
      is checked (length, magic, version, total length), then the payload
      is taken as `UnpackedPayload` says. On success the output always has
      the recorded original length. */
  function Unpacked(c: seq<uint8>): (r: Result<seq<uint8>, Error>)
    ensures r.Success? ==>
      |c| >= HEADER_SIZE && c[..4] == MAGIC && c[4] == VERSION
      && |c| == HEADER_SIZE + FromLE(c[14..22])
      && |r.value| == FromLE(c[6..14])
    ensures r.Success? && c[5] % 2 == 0 ==> r.value == c[HEADER_SIZE..]
    ensures r.Success? && c[5] % 2 == 1 && r.value != [] ==> Decode(c[HEADER_SIZE..]) == Some(r.value)
    ensures HeaderChecked(c).Success? && c[5] % 2 == 0 && FromLE(c[6..14]) == |c| - HEADER_SIZE ==>
      r == Success(c[HEADER_SIZE..])
    ensures HeaderChecked(c).Success? && c[5] % 2 == 1 && Decode(c[HEADER_SIZE..]).Some?
            && |Decode(c[HEADER_SIZE..]).value| == FromLE(c[6..14]) <= SIZE_MAX ==>
      r == Success(Decode(c[HEADER_SIZE..]).value)
    ensures HeaderChecked(c).Success? && c[5] % 2 == 1 ==>
      (r.Success? <==> |DecodedOrEmpty(c[HEADER_SIZE..])| == FromLE(c[6..14]))
    ensures r.Success? && c[5] % 2 == 1 ==> r.value == DecodedOrEmpty(c[HEADER_SIZE..])
  {
    match HeaderChecked(c)
    case Failure(e) => Failure(e)
    case Success(orig) => UnpackedPayload(c[5], orig, c[HEADER_SIZE..])
  }

  /** The header checks of `rle_decompress_file`, in the order the C code
      makes them; on success, the recorded original length. */
  function HeaderChecked(c: seq<uint8>): (r: Result<nat, Error>)
    ensures r.Success? <==>
      |c| >= HEADER_SIZE && c[..4] == MAGIC && c[4] == VERSION
      && |c| == HEADER_SIZE + FromLE(c[14..22])
    ensures r.Success? ==> r.value == FromLE(c[6..14])
    ensures r == Failure(TooShort) <==> |c| < HEADER_SIZE
  {
    if |c| < HEADER_SIZE then Failure(TooShort)
    else if c[..4] != MAGIC then Failure(BadMagic)
    else if c[4] != VERSION then Failure(BadVersion)
    else if HEADER_SIZE + FromLE(c[14..22]) != |c| then Failure(LengthMismatch)
    else Success(FromLE(c[6..14]))
  }

  /** The payload of a container whose header is sound: a stored payload
      is the output when its length is the recorded original length `orig`;
      an RLE payload is decoded and the result must have length `orig`. */
  function UnpackedPayload(flags: uint8, orig: nat, payload: seq<uint8>): (r: Result<seq<uint8>, Error>)
    ensures r.Success? ==> |r.value| == orig
    ensures r.Success? && flags % 2 == 0 ==> r.value == payload
    ensures r.Success? && flags % 2 == 1 && r.value != [] ==> Decode(payload) == Some(r.value)
    ensures flags % 2 == 0 ==> (r.Success? <==> orig == |payload|)
    ensures flags % 2 == 1 && Decode(payload).Some? && |Decode(payload).value| == orig <= SIZE_MAX ==>
      r == Success(Decode(payload).value)
    ensures flags % 2 == 1 ==> (r.Success? <==> |DecodedOrEmpty(payload)| == orig)
    ensures r.Success? && flags % 2 == 1 ==> r.value == DecodedOrEmpty(payload)
  {
    if flags % 2 == 0 then
      if orig != |payload| then Failure(StoredSizeMismatch) else Success(payload)
    else
      var out := DecodedOrEmpty(payload);
      if |out| == 0 && orig != 0 then Failure(NothingDecoded)
      else if |out| != orig then Failure(DecodedSizeMismatch)
      else Success(out)
  }

  lemma Pow256Eight()
    ensures Pow256(8) == UINT64_LIMIT
  {
  }

  /** The bytes of a container, field by field. */
  lemma HeaderFields(c: seq<uint8>, flags: uint8, origLen: nat, payload: seq<uint8>)
    requires |c| == HEADER_SIZE + |payload|
    requires c[..4] == MAGIC && c[4] == VERSION && c[5] == flags
    requires c[6..14] == ToLE(origLen, 8) && c[14..22] == ToLE(|payload|, 8)
    requires c[HEADER_SIZE..] == payload
    ensures c == Header(flags, origLen, |payload|) + payload
  {
    assert c[..6] == MAGIC + [VERSION, flags] by {
      assert c[..6] == c[..4] + c[4..6];
    }
    assert c[..14] == c[..6] + c[6..14];
    assert c[..22] == c[..14] + c[14..22];
    assert c == c[..22] + c[22..];
  }

  /** Reading the fields of a container back: magic, version, flags, the
      two lengths and the payload. */
  lemma ContainerFields(flags: uint8, origLen: nat, payload: seq<uint8>)
    requires origLen < UINT64_LIMIT && |payload| < UINT64_LIMIT
    ensures var c := Header(flags, origLen, |payload|) + payload;
      && |c| == HEADER_SIZE + |payload|
      && c[..4] == MAGIC && c[4] == VERSION && c[5] == flags
      && FromLE(c[6..14]) == origLen && FromLE(c[14..22]) == |payload|
      && c[HEADER_SIZE..] == payload
  {
    var h := Header(flags, origLen, |payload|);
    var c := h + payload;
    assert c[..4] == h[..4] && c[4] == h[4] && c[5] == h[5];
    assert c[6..14] == h[6..14] && c[14..22] == h[14..22];
    assert c[HEADER_SIZE..] == payload;
    Pow256Eight();
    FromToLE(origLen, 8);
    FromToLE(|payload|, 8);
  }

  /** A well-formed container passes the header checks, and what it
      unpacks to is decided by its flags and payload alone. */
  lemma UnpackContainer(flags: uint8, origLen: nat, payload: seq<uint8>)
    requires origLen < UINT64_LIMIT && |payload| < UINT64_LIMIT
    ensures Unpacked(Header(flags, origLen, |payload|) + payload) == UnpackedPayload(flags, origLen, payload)
  {
    ContainerFields(flags, origLen, payload);
  }

  /** Unpacking accepts every stored container whose recorded lengths
      agree, not only those packing writes, and gives back its payload. */
  lemma UnpackStored(p: seq<uint8>)
    requires |p| < UINT64_LIMIT
    ensures Unpacked(Header(0, |p|, |p|) + p) == Success(p)
  {
    UnpackContainer(0, |p|, p);
  }

  /** Unpacking accepts every RLE container whose payload decodes to `t`
      and which records the length of `t`, and gives back `t`. */
  lemma UnpackRle(payload: seq<uint8>, t: seq<uint8>)
    requires |payload| < UINT64_LIMIT && |t| <= SIZE_MAX
    requires Decode(payload) == Some(t)
    ensures Unpacked(Header(FLAG_RLE, |t|, |payload|) + payload) == Success(t)
  {
    UnpackContainer(FLAG_RLE, |t|, payload);
  }

  /** Every container unpacking accepts is one that can be laid out from
      its fields: the header it carries, then its payload. */
  lemma AcceptedIsLaidOut(c: seq<uint8>)
    requires Unpacked(c).Success?
    ensures c == Header(c[5], FromLE(c[6..14]), |c| - HEADER_SIZE) + c[HEADER_SIZE..]
  {
    ToFromLE(c[6..14]);
    ToFromLE(c[14..22]);
    HeaderFields(c, c[5], FromLE(c[6..14]), c[HEADER_SIZE..]);
  }

  /** The container for `x`, as its flags and payload. */
  lemma PackedParts(x: seq<uint8>)
    requires Packed(x).Success?
    ensures var rle := 0 < |Compressed(x)| < |x|;
      Packed(x).value == Header(if rle then FLAG_RLE else 0, |x|, |if rle then Compressed(x) else x|)
                         + (if rle then Compressed(x) else x)
  {
  }

  /** Unpacking a packed container gives back the input: the round trip
      `rle_decompress_file(rle_compress_file(x)) == x`. */
  lemma UnpackPack(x: seq<uint8>)
    requires |x| <= SIZE_MAX && Packed(x).Success?
    ensures Unpacked(Packed(x).value) == Success(x)
  {
    PackedParts(x);
    if 0 < |Compressed(x)| < |x| {
      UnpackContainer(FLAG_RLE, |x|, Compressed(x));
      assert DecodedOrEmpty(Compressed(x)) == x;
    } else {
      UnpackContainer(0, |x|, x);
    }
  }

  /** Packing succeeds for every input up to half the address space. */
  lemma PackSucceeds(x: seq<uint8>)
    requires |x| <= SIZE_MAX / 2
    ensures Packed(x).Success?
  {
  }

  /** The header `rle_compress_file` writes: the flag bit is set exactly when
      the RLE stream is non-empty and shorter than the input, the original
      length field holds the input length, the payload length field the
      length of what follows the header, and what follows is the RLE stream
      or the input itself. */
  lemma PackLayout(x: seq<uint8>)
    requires |x| <= SIZE_MAX && Packed(x).Success?
    ensures var c := Packed(x).value;
      && c[..4] == MAGIC && c[4] == VERSION
      && (c[5] == FLAG_RLE <==> 0 < |Encoded(x)| < |x|)
      && (c[5] == FLAG_RLE || c[5] == 0)
      && FromLE(c[6..14]) == |x|
      && FromLE(c[14..22]) == |c| - HEADER_SIZE
      && c[HEADER_SIZE..] == (if c[5] == FLAG_RLE then Encoded(x) else x)
  {
    var rle := 0 < |Compressed(x)| < |x|;
    PackedParts(x);
    ContainerFields(if rle then FLAG_RLE else 0, |x|, if rle then Compressed(x) else x);
  }

  /** No strict prefix of a packed container unpacks: a cut inside the
      header leaves it too short, a cut inside the payload contradicts the
      recorded payload length. */
  lemma UnpackRejectsTruncated(x: seq<uint8>, k: nat)
    requires |x| <= SIZE_MAX && Packed(x).Success? && k < |Packed(x).value|
    ensures Unpacked(Packed(x).value[..k]).Failure?
  {
    var c := Packed(x).value;
    PackLayout(x);
    CutRejected(c, k);
  }

  /** A strict prefix of a container whose recorded payload length matches
      its length is rejected. */
  lemma CutRejected(c: seq<uint8>, k: nat)
    requires |c| >= HEADER_SIZE && k < |c|
    requires FromLE(c[14..22]) == |c| - HEADER_SIZE
    ensures Unpacked(c[..k]).Failure?
  {
    if k >= HEADER_SIZE {
      var t := c[..k];
      assert t[14..22] == c[14..22];
    }
  }

  /** The empty input: the container is the bare header with both lengths 0,
      and it unpacks to nothing. */
  lemma PackEmpty()
    ensures Packed([]) == Success(Header(0, 0, 0))
    ensures Unpacked(Header(0, 0, 0)) == Success([])
  {
    assert Header(0, 0, 0) + [] == Header(0, 0, 0);
    UnpackPack([]);
  }

  /** An RLE container that records an original length of 0 is accepted
      with empty output whenever its payload is malformed: a failed decode
      gives nothing, and nothing has the recorded length 0. */
  lemma UnpackIgnoresPayloadOfEmpty(payload: seq<uint8>)
    requires Decode(payload).None? && |payload| < UINT64_LIMIT
    ensures Unpacked(Header(FLAG_RLE, 0, |payload|) + payload) == Success([])
  {
    UnpackContainer(FLAG_RLE, 0, payload);
  }

  /** The malformed one-byte payload `[0x05]` (a literal cut short) is such
      a payload. */
  lemma UnpackIgnoresCutLiteral()
    ensures Unpacked(Header(FLAG_RLE, 0, 1) + [0x05]) == Success([])
  {
    assert Decode([0x05]) == None;
    UnpackIgnoresPayloadOfEmpty([0x05]);
  }

  /** But a payload that decodes to some bytes (that fit in SIZE_MAX) does
      not match the recorded length 0, and the container is rejected. */
  lemma UnpackRejectsNonEmptyForEmpty(payload: seq<uint8>)
    requires |payload| < UINT64_LIMIT && Decode(payload).Some?
    requires 0 < |Decode(payload).value| <= SIZE_MAX
    ensures Unpacked(Header(FLAG_RLE, 0, |payload|) + payload).Failure?
  {
    UnpackContainer(FLAG_RLE, 0, payload);
  }

  /** `rle_compress_file` without the file I/O (src/rle.c:162-198): compress
      a non-empty input, choose the mode, and lay out header and payload in
      a freshly allocated array. */
  method Pack(x: seq<uint8>) returns (r: Result<seq<uint8>, Error>)
    requires |x| <= SIZE_MAX
    ensures r == Packed(x)
  {
    var comp: seq<uint8> := [];
    if |x| > 0 {
      comp := Compress(x);
    }
    if |x| > 0 && |comp| == 0 {
      return Failure(CompressFailed);
    }
    var flags: uint8 := 0;
    var payload := x;
    if 0 < |comp| && |comp| < |x| {
      flags := FLAG_RLE;
      payload := comp;
    }
    var c := Lay(flags, |x|, payload);
    r := Success(c);
  }

  /** The header and payload written into one array of `22 + |payload|`
      bytes (src/rle.c:182-191). */
  method Lay(flags: uint8, origLen: nat, payload: seq<uint8>) returns (c: seq<uint8>)
    requires origLen < UINT64_LIMIT && |payload| < UINT64_LIMIT
    ensures c == Header(flags, origLen, |payload|) + payload
  {
    var out := new uint8[HEADER_SIZE + |payload|];
    forall k | 0 <= k < |payload| {
      out[HEADER_SIZE + k] := payload[k];
    }
    assert out[HEADER_SIZE..] == payload;
    WriteHeader(out, flags, origLen, |payload|);
    assert out[..] == out[..HEADER_SIZE] + out[HEADER_SIZE..];
    c := out[..];
  }

  /** The 22 header bytes written at the front of `out`; the bytes after
      them are left alone (src/rle.c:185-189). */
  method WriteHeader(out: array<uint8>, flags: uint8, origLen: nat, payloadLen: nat)
    requires origLen < UINT64_LIMIT && payloadLen < UINT64_LIMIT && HEADER_SIZE <= out.Length
    modifies out
    ensures out[..HEADER_SIZE] == Header(flags, origLen, payloadLen)
    ensures out[HEADER_SIZE..] == old(out[HEADER_SIZE..])
  {
    out[0], out[1], out[2], out[3] := 0x52, 0x4C, 0x45, 0x43;
    out[4] := VERSION;
    out[5] := flags;
    assert out[..6] == MAGIC + [VERSION, flags];
    WriteLE64(out, 6, origLen);
    assert out[..6] == MAGIC + [VERSION, flags];
    assert out[..14] == MAGIC + [VERSION, flags] + ToLE(origLen, 8) by {
      assert out[..14] == out[..6] + out[6..14];
    }
    WriteLE64(out, 14, payloadLen);
    assert out[..14] == MAGIC + [VERSION, flags] + ToLE(origLen, 8);
    assert out[..HEADER_SIZE] == out[..14] + out[14..22];
  }

  /** `rle_decompress_file` without the file I/O (src/rle.c:200-233): the
      header checks, then the payload. */
  method Unpack(c: seq<uint8>) returns (r: Result<seq<uint8>, Error>)
    requires |c| <= SIZE_MAX
    ensures r == Unpacked(c)
  {
    var header := CheckHeader(c);
    if header.Failure? {
      return Failure(header.error);
    }
    r := UnpackPayload(c[5], header.value, c[HEADER_SIZE..]);
  }

  /** The header checks (src/rle.c:205-211). The length check is done in
      64-bit arithmetic as in C; it cannot wrap to a false match because
      the container is at least 22 bytes long. */
  method CheckHeader(c: seq<uint8>) returns (r: Result<nat, Error>)
    requires |c| <= SIZE_MAX
    ensures r == HeaderChecked(c)
  {
    if |c| < HEADER_SIZE {
      return Failure(TooShort);
    }
    if c[0] != 0x52 || c[1] != 0x4C || c[2] != 0x45 || c[3] != 0x43 {
      assert c[..4] != MAGIC by {
        assert c[..4][0] == c[0] && c[..4][1] == c[1] && c[..4][2] == c[2] && c[..4][3] == c[3];
      }
      return Failure(BadMagic);
    }
    assert c[..4] == MAGIC;
    if c[4] != VERSION {
      return Failure(BadVersion);
    }
    var orig := ReadLE64(c, 6);
    var payloadSize := ReadLE64(c, 14);
    if (HEADER_SIZE + payloadSize) % UINT64_LIMIT != |c| {
      return Failure(LengthMismatch);
    }
    LengthCheckExact(HEADER_SIZE + payloadSize, |c|);
    return Success(orig);
  }

  /** The 64-bit sum `22 + payload_size` cannot wrap around to the length
      of a container that holds a header: a wrapped sum is below 22. */
  lemma LengthCheckExact(sum: nat, len: nat)
    requires sum < UINT64_LIMIT + HEADER_SIZE && HEADER_SIZE <= len < UINT64_LIMIT
    requires sum % UINT64_LIMIT == len
    ensures sum == len
  {
  }

  /** The part of `rle_decompress_file` after the header checks
      (src/rle.c:213-232). */
  method UnpackPayload(flags: uint8, orig: nat, payload: seq<uint8>) returns (r: Result<seq<uint8>, Error>)
    requires |payload| <= SIZE_MAX
    ensures r == UnpackedPayload(flags, orig, payload)
  {
    if flags % 2 == 0 {
      // stored
      if orig != |payload| {
        return Failure(StoredSizeMismatch);
      }
      return Success(payload);
    }
    var decoded := Decompress(payload);
    var out := if decoded.Some? then decoded.value else [];
    assert out == DecodedOrEmpty(payload);
    if |out| == 0 && orig != 0 {
      return Failure(NothingDecoded);
    }
    if |out| != orig {
      return Failure(DecodedSizeMismatch);
    }
    return Success(out);
  }
}
