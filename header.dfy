/**
 * The 24-byte `CompressionHeader` of src/lib.rs, a packed big-endian
 * structure: a `u64` tag followed by four `u32` fields.
 */
module Header {
  import opened Base

  /** `mem::size_of::<CompressionHeader>()`. */
  const HEADER_SIZE: nat := 24

  /** The ASCII tag "complzss". */
  const COMPLZSS: seq<byte> := [0x63, 0x6f, 0x6d, 0x70, 0x6c, 0x7a, 0x73, 0x73]

  /** "complzss" read as a big-endian `u64`. */
  const COMPLZSS_TAG: uint64 := 0x636f_6d70_6c7a_7373

  datatype CompressionHeader = CompressionHeader(
    compzlssStr: uint64,
    unknown: uint32,
    uncompressedSize: uint32,
    compressedSize: uint32,
    unknown1: uint32)

  function Pow256(n: nat): (p: nat)
    ensures p > 0
  {
    if n == 0 then 1 else 0x100 * Pow256(n - 1)
  }

  /** The unsigned integer whose big-endian encoding is `s` (most significant byte first). */
  function BeValue(s: seq<byte>): (v: nat)
    ensures v < Pow256(|s|)
  {
    if s == [] then 0 else BeValue(s[..|s| - 1]) * 0x100 + s[|s| - 1]
  }

  /** The `n`-byte big-endian encoding of `v`. */
  function BeBytes(v: nat, n: nat): (s: seq<byte>)
    requires v < Pow256(n)
    ensures |s| == n
  {
    if n == 0 then [] else BeBytes(v / 0x100, n - 1) + [v % 0x100]
  }

  lemma {:induction false} BeValueOfBytes(v: nat, n: nat)
    requires v < Pow256(n)
    ensures BeValue(BeBytes(v, n)) == v
  {
    if n > 0 {
      var s := BeBytes(v, n);
      assert s[..n - 1] == BeBytes(v / 0x100, n - 1);
      BeValueOfBytes(v / 0x100, n - 1);
    }
  }

  lemma {:induction false} BeBytesOfValue(s: seq<byte>)
    ensures BeBytes(BeValue(s), |s|) == s
  {
    if s != [] {
      var n := |s|;
      BeBytesOfValue(s[..n - 1]);
      assert BeValue(s) / 0x100 == BeValue(s[..n - 1]);
      assert s == s[..n - 1] + [s[n - 1]];
    }
  }

  lemma Pow256Sizes()
    ensures Pow256(4) == 0x1_0000_0000 && Pow256(8) == 0x1_0000_0000_0000_0000
  {
    assert Pow256(2) == 0x1_0000;
  }

  /**
   * `CompressionHeader::unpack`: the five fields, in order, each read
   * big-endian from its own bytes of the 24-byte array.
   */
  function Unpack(b: seq<byte>): (h: CompressionHeader)
    requires |b| == HEADER_SIZE
    ensures h.compzlssStr == BeValue(b[0..8])
    ensures h.unknown == BeValue(b[8..12])
    ensures h.uncompressedSize == BeValue(b[12..16])
    ensures h.compressedSize == BeValue(b[16..20])
    ensures h.unknown1 == BeValue(b[20..24])
  {
    Pow256Sizes();
    CompressionHeader(BeValue(b[0..8]), BeValue(b[8..12]), BeValue(b[12..16]),
                      BeValue(b[16..20]), BeValue(b[20..24]))
  }

  /** `CompressionHeader::pack`, the inverse layout. */
  function Pack(h: CompressionHeader): (b: seq<byte>)
    ensures |b| == HEADER_SIZE
  {
    Pow256Sizes();
    BeBytes(h.compzlssStr, 8) + BeBytes(h.unknown, 4) + BeBytes(h.uncompressedSize, 4)
      + BeBytes(h.compressedSize, 4) + BeBytes(h.unknown1, 4)
  }

  /** Unpacking a packed header gives it back. */
  lemma UnpackPack(h: CompressionHeader)
    ensures Unpack(Pack(h)) == h
  {
    Pow256Sizes();
    var b := Pack(h);
    assert b[0..8] == BeBytes(h.compzlssStr, 8);
    assert b[8..12] == BeBytes(h.unknown, 4);
    assert b[12..16] == BeBytes(h.uncompressedSize, 4);
    assert b[16..20] == BeBytes(h.compressedSize, 4);
    assert b[20..24] == BeBytes(h.unknown1, 4);
    BeValueOfBytes(h.compzlssStr, 8);
    BeValueOfBytes(h.unknown, 4);
    BeValueOfBytes(h.uncompressedSize, 4);
    BeValueOfBytes(h.compressedSize, 4);
    BeValueOfBytes(h.unknown1, 4);
  }

  /** Every 24-byte array is the packing of the header it unpacks to. */
  lemma PackUnpack(b: seq<byte>)
    requires |b| == HEADER_SIZE
    ensures Pack(Unpack(b)) == b
  {
    BeBytesOfValue(b[0..8]);
    BeBytesOfValue(b[8..12]);
    BeBytesOfValue(b[12..16]);
    BeBytesOfValue(b[16..20]);
    BeBytesOfValue(b[20..24]);
    assert b == b[0..8] + b[8..12] + b[12..16] + b[16..20] + b[20..24];
  }

  /** A header whose first eight bytes are "complzss" carries the tag value `COMPLZSS_TAG`. */
  lemma TagOfComplzss(b: seq<byte>)
    requires |b| == HEADER_SIZE && b[0..8] == COMPLZSS
    ensures Unpack(b).compzlssStr == COMPLZSS_TAG
  {
    // BeValue reads the tag one byte at a time, from the most significant end.
    var t1: seq<byte> := [0x63];
    assert t1[..0] == [] && BeValue(t1) == 0x63;
    var t2 := t1 + [0x6f];
    assert t2[..1] == t1 && BeValue(t2) == 0x636f;
    var t3 := t2 + [0x6d];
    assert t3[..2] == t2 && BeValue(t3) == 0x636f6d;
    var t4 := t3 + [0x70];
    assert t4[..3] == t3 && BeValue(t4) == 0x636f6d70;
    var t5 := t4 + [0x6c];
    assert t5[..4] == t4 && BeValue(t5) == 0x636f6d706c;
    var t6 := t5 + [0x7a];
    assert t6[..5] == t5 && BeValue(t6) == 0x636f6d706c7a;
    var t7 := t6 + [0x73];
    assert t7[..6] == t6 && BeValue(t7) == 0x636f6d706c7a73;
    var t8 := t7 + [0x73];
    assert t8[..7] == t7 && BeValue(t8) == 0x636f6d706c7a7373;
    assert b[0..8] == t8;
  }
}
