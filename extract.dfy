/**
 * `extract_from_buf` of src/lib.rs: find the "complzss" header, find the
 * Mach-O magic, decode the LZSS payload that starts one byte before that
 * magic, and check the decoded length against the header.
 */
module Extract {
  import opened Base
  import opened Search
  import opened Header
  import opened Lzss

  /** The 64-bit Mach-O magic as it appears in the image: `CF FA ED FE`. */
  const MACHO_MAGIC: seq<byte> := [0xCF, 0xFA, 0xED, 0xFE]

  /** The ways `extract_from_buf` can fail. */
  datatype ExtractError =
    | NoCompMagic                // "Can't find complzss magic"
    | TooSmall                   // "Image too small, no complzss header space"
    | NoMachO                    // "Can't find mach-o header"
    | MachOAtStart               // `macho_loc - 1` underflows: a panic in the Rust code
    | SizeMismatch               // "The uncompressed size doesn't match the one in the header"
    | DecodeFailed(e: DecodeError) // the decoder's error, passed through

  /** Where the decoder starts and what it is asked for, once both magics and the header are found. */
  datatype Job = Job(header: CompressionHeader, machoLoc: nat)

  /**
   * The checks before decoding: the first "complzss", room for the header
   * after it, and the first Mach-O magic, which must not be at offset 0.
   */
  function Locate(buf: seq<byte>): (r: Result<Job, ExtractError>)
    ensures r.Ok? ==> r.value.machoLoc > 0
  {
    match FindSubsequence(buf, COMPLZSS)
    case None => Err(NoCompMagic)
    case Some(p) =>
      if p + HEADER_SIZE > |buf| then Err(TooSmall)
      else
        var header := Unpack(buf[p..p + HEADER_SIZE]);
        match FindSubsequence(buf, MACHO_MAGIC)
        case None => Err(NoMachO)
        case Some(m) => if m == 0 then Err(MachOAtStart) else Ok(Job(header, m))
  }

  /** The check after decoding: a decoder error passes through, and the count must be the declared size. */
  function Validate(header: CompressionHeader, d: Decoded): (r: Result<seq<byte>, ExtractError>)
    ensures r.Ok? <==> d.result == Ok(header.uncompressedSize)
    ensures r.Ok? ==> r.value == d.written
    ensures d.result.Err? ==> r == Err(DecodeFailed(d.result.error))
    ensures d.result.Ok? && d.result.value != header.uncompressedSize ==> r == Err(SizeMismatch)
  {
    match d.result
    case Err(e) => Err(DecodeFailed(e))
    case Ok(count) => if count != header.uncompressedSize then Err(SizeMismatch) else Ok(d.written)
  }

  /** What `extract_from_buf` returns for the buffer `buf`. */
  function Extract(buf: seq<byte>): (r: Result<seq<byte>, ExtractError>)
    ensures Locate(buf).Err? ==> r == Err(Locate(buf).error)
    ensures r.Ok? ==> Locate(buf).Ok? && |r.value| == Locate(buf).value.header.uncompressedSize
  {
    match Locate(buf)
    case Err(e) => Err(e)
    case Ok(job) => Validate(job.header, Decode(buf[job.machoLoc - 1..], job.header.compressedSize))
  }

  /**
   * The pipeline as src/lib.rs runs it, with the imperative decoder writing
   * into a fresh, empty output buffer.  The input buffer is only read.
   */
  method ExtractFromBuf(buf: seq<byte>) returns (res: Result<seq<byte>, ExtractError>)
    ensures res == Extract(buf)
  {
    var lzssLocation := FindSubsequence(buf, COMPLZSS);
    if lzssLocation.None? {
      return Err(NoCompMagic);
    }
    var p := lzssLocation.value;
    if p + HEADER_SIZE > |buf| {
      return Err(TooSmall);
    }
    var headerBytes := buf[p..p + HEADER_SIZE];
    var header := Unpack(headerBytes);
    var machoLoc := FindSubsequence(buf, MACHO_MAGIC);
    if machoLoc.None? {
      return Err(NoMachO);
    }
    var m := machoLoc.value;
    if m == 0 {
      return Err(MachOAtStart);
    }
    assert Locate(buf) == Ok(Job(header, m));
    var resDeco, decodedBuffer, consumed := DecodeBlockContent(buf[m - 1..], header.compressedSize, []);
    ghost var d := Decode(buf[m - 1..], header.compressedSize);
    assert d == Decoded(resDeco, decodedBuffer, consumed);
    match resDeco
    case Ok(decompressed) =>
      if decompressed != header.uncompressedSize {
        return Err(SizeMismatch);
      }
      return Ok(decodedBuffer);
    case Err(e) =>
      return Err(DecodeFailed(e));
  }

  /** Without "complzss" anywhere in the buffer, and only then, extraction reports the missing magic. */
  lemma NoCompMagicIff(buf: seq<byte>)
    ensures Extract(buf) == Err(NoCompMagic) <==> forall p :: !OccursAt(buf, COMPLZSS, p)
  {
  }

  /**
   * With "complzss" first found at `p`, the header is "too small" exactly
   * when fewer than 24 bytes start at `p`.
   */
  lemma TooSmallIff(buf: seq<byte>, p: nat)
    requires FirstOccurrence(buf, COMPLZSS, p)
    ensures Extract(buf) == Err(TooSmall) <==> p + HEADER_SIZE > |buf|
  {
    FirstOccurrenceUnique(buf, COMPLZSS, p);
  }

  /** There is one first occurrence, and `FindSubsequence` finds it. */
  lemma FirstOccurrenceUnique(h: seq<byte>, n: seq<byte>, p: nat)
    requires |n| > 0 && FirstOccurrence(h, n, p)
    ensures FindSubsequence(h, n) == Some(p)
  {
  }

  /**
   * With a complete header at the first "complzss" `p`, the Mach-O magic is
   * searched in the whole buffer, from offset 0: it is missing only when it
   * occurs nowhere, and when its first occurrence is at offset 0 the Rust code
   * panics.
   */
  lemma MachOSearch(buf: seq<byte>, p: nat)
    requires FirstOccurrence(buf, COMPLZSS, p) && p + HEADER_SIZE <= |buf|
    ensures Extract(buf) == Err(NoMachO) <==> forall m :: !OccursAt(buf, MACHO_MAGIC, m)
    ensures Extract(buf) == Err(MachOAtStart) <==> OccursAt(buf, MACHO_MAGIC, 0)
  {
    FirstOccurrenceUnique(buf, COMPLZSS, p);
    if OccursAt(buf, MACHO_MAGIC, 0) {
      FirstOccurrenceUnique(buf, MACHO_MAGIC, 0);
    }
  }

  /**
   * The decoding step: with the header at the first "complzss" `p` and the
   * first Mach-O magic at `m > 0`, the decoder runs on the buffer from
   * `m - 1` with the compressed size (bytes 16..20 of the header, big-endian)
   * as its budget.  A decoder error is passed through, a byte count other
   * than the uncompressed size (bytes 12..16) is a size mismatch, and
   * otherwise the result is exactly the decoded bytes.
   */
  lemma DecodeStep(buf: seq<byte>, p: nat, m: nat)
    requires FirstOccurrence(buf, COMPLZSS, p) && p + HEADER_SIZE <= |buf|
    requires FirstOccurrence(buf, MACHO_MAGIC, m) && m > 0
    ensures var d := Decode(buf[m - 1..], BeValue(buf[p + 16..p + 20]));
      && (d.result.Err? ==> Extract(buf) == Err(DecodeFailed(d.result.error)))
      && (d.result.Ok? && |d.written| != BeValue(buf[p + 12..p + 16]) ==> Extract(buf) == Err(SizeMismatch))
      && (d.result.Ok? && |d.written| == BeValue(buf[p + 12..p + 16]) ==> Extract(buf) == Ok(d.written))
  {
    LocateFound(buf, p, m);
    HeaderSizes(buf, p);
  }

  /** With both magics first found at `p` and `m > 0` and a complete header, decoding is the next step. */
  lemma LocateFound(buf: seq<byte>, p: nat, m: nat)
    requires FirstOccurrence(buf, COMPLZSS, p) && p + HEADER_SIZE <= |buf|
    requires FirstOccurrence(buf, MACHO_MAGIC, m) && m > 0
    ensures Locate(buf) == Ok(Job(Unpack(buf[p..p + HEADER_SIZE]), m))
  {
    FirstOccurrenceUnique(buf, COMPLZSS, p);
    FirstOccurrenceUnique(buf, MACHO_MAGIC, m);
  }

  /** The header's two sizes are read big-endian from bytes 12..16 and 16..20 after the tag's position. */
  lemma HeaderSizes(buf: seq<byte>, p: nat)
    requires p + HEADER_SIZE <= |buf|
    ensures Unpack(buf[p..p + HEADER_SIZE]).uncompressedSize == BeValue(buf[p + 12..p + 16])
    ensures Unpack(buf[p..p + HEADER_SIZE]).compressedSize == BeValue(buf[p + 16..p + 20])
  {
    var b := buf[p..p + HEADER_SIZE];
    assert b[12..16] == buf[p + 12..p + 16] by {
      forall k | 0 <= k < 4 ensures b[12..16][k] == buf[p + 12..p + 16][k] { }
    }
    assert b[16..20] == buf[p + 16..p + 20] by {
      forall k | 0 <= k < 4 ensures b[16..20][k] == buf[p + 16..p + 20][k] { }
    }
  }

  /**
   * A successful extraction found both magics, a complete header whose tag
   * is "complzss", and decoded exactly the declared uncompressed size.
   */
  lemma Success(buf: seq<byte>)
    requires Extract(buf).Ok?
    ensures exists p: nat :: FirstOccurrence(buf, COMPLZSS, p) && p + HEADER_SIZE <= |buf|
    ensures exists m: nat :: FirstOccurrence(buf, MACHO_MAGIC, m) && m > 0
    ensures var p := FindSubsequence(buf, COMPLZSS).value;
      var header := Unpack(buf[p..p + HEADER_SIZE]);
      && header.compzlssStr == COMPLZSS_TAG
      && |Extract(buf).value| == header.uncompressedSize
      && Extract(buf).value == Decode(buf[FindSubsequence(buf, MACHO_MAGIC).value - 1..], header.compressedSize).written
  {
    LocateSound(buf);
    var p := FindSubsequence(buf, COMPLZSS).value;
    var b := buf[p..p + HEADER_SIZE];
    assert b[0..8] == COMPLZSS by {
      forall k | 0 <= k < 8 ensures b[0..8][k] == buf[p..p + 8][k] { }
    }
    TagOfComplzss(b);
  }

  /** A successful `Locate` found both magics, room for the header, and the Mach-O magic past offset 0. */
  lemma LocateSound(buf: seq<byte>)
    requires Locate(buf).Ok?
    ensures FindSubsequence(buf, COMPLZSS).Some? && FindSubsequence(buf, MACHO_MAGIC).Some?
    ensures var p := FindSubsequence(buf, COMPLZSS).value;
      var m := FindSubsequence(buf, MACHO_MAGIC).value;
      && p + HEADER_SIZE <= |buf| && m > 0
      && Locate(buf).value == Job(Unpack(buf[p..p + HEADER_SIZE]), m)
  {
  }
}
