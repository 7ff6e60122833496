/** The 32-byte short directory entry of the FAT file systems. */
module DirEntry {
  import opened Bytes

  datatype Entry = Entry(
    name: seq<byte>, attributes: byte, reserved: byte, creationTimeTenth: byte,
    creationTime: nat, creationDate: nat, accessDate: nat, clusterHigh: nat,
    modificationTime: nat, modificationDate: nat, clusterLow: nat, size: nat)

  const DIRECTORY := 0x10
  const VOLUME_ID := 0x08
  const LONG_NAME := 0x0F

  predicate WellTyped(e: Entry) {
    && |e.name| == 11
    && e.creationTime < 0x10000 && e.creationDate < 0x10000 && e.accessDate < 0x10000
    && e.clusterHigh < 0x10000 && e.clusterLow < 0x10000
    && e.modificationTime < 0x10000 && e.modificationDate < 0x10000
    && e.size < 0x1_0000_0000
  }

  function EncodeEntry(e: Entry): (b: seq<byte>)
    requires WellTyped(e)
    ensures |b| == 32
  {
    e.name + [e.attributes, e.reserved, e.creationTimeTenth]
    + Encode(2, e.creationTime) + Encode(2, e.creationDate) + Encode(2, e.accessDate)
    + Encode(2, e.clusterHigh) + Encode(2, e.modificationTime) + Encode(2, e.modificationDate)
    + Encode(2, e.clusterLow) + Encode(4, e.size)
  }

  function DecodeEntry(b: seq<byte>): Entry
    requires |b| == 32
  {
    Entry(b[..11], b[11], b[12], b[13],
          Decode(b[14..16]), Decode(b[16..18]), Decode(b[18..20]), Decode(b[20..22]),
          Decode(b[22..24]), Decode(b[24..26]), Decode(b[26..28]), Decode(b[28..32]))
  }

  lemma EntryRoundTrip(e: Entry)
    requires WellTyped(e)
    ensures DecodeEntry(EncodeEntry(e)) == e
  {
    hide Encode, Decode;
    Widths();
    FieldsOf(e.name, [e.attributes, e.reserved, e.creationTimeTenth], Encode(2, e.creationTime), Encode(2, e.creationDate),
             Encode(2, e.accessDate), Encode(2, e.clusterHigh), Encode(2, e.modificationTime),
             Encode(2, e.modificationDate), Encode(2, e.clusterLow), Encode(4, e.size));
    DecodeEncode(2, e.creationTime);
    DecodeEncode(2, e.creationDate);
    DecodeEncode(2, e.accessDate);
    DecodeEncode(2, e.clusterHigh);
    DecodeEncode(2, e.modificationTime);
    DecodeEncode(2, e.modificationDate);
    DecodeEncode(2, e.clusterLow);
    DecodeEncode(4, e.size);
  }

  /** The fields of 32 bytes put together from them. */
  lemma FieldsOf(a: seq<byte>, b: seq<byte>, c: seq<byte>, d: seq<byte>, e: seq<byte>,
                 f: seq<byte>, g: seq<byte>, h: seq<byte>, i: seq<byte>, j: seq<byte>)
    requires |a| == 11 && |b| == 3 && |c| == |d| == |e| == |f| == |g| == |h| == |i| == 2 && |j| == 4
    ensures var s := a + b + c + d + e + f + g + h + i + j;
      && |s| == 32 && s[..11] == a && s[11] == b[0] && s[12] == b[1] && s[13] == b[2]
      && s[14..16] == c && s[16..18] == d && s[18..20] == e && s[20..22] == f
      && s[22..24] == g && s[24..26] == h && s[26..28] == i && s[28..32] == j
  {
    var s3 := a + b + c;
    var s5 := s3 + d + e;
    var s7 := s5 + f + g;
    var s9 := s7 + h + i;
    var s := s9 + j;
    assert s[..28] == s9 && s[28..32] == j;
    assert s9[..24] == s7 && s9[24..26] == h && s9[26..28] == i;
    assert s7[..20] == s5 && s7[20..22] == f && s7[22..24] == g;
    assert s5[..16] == s3 && s5[16..18] == d && s5[18..20] == e;
    assert s3[..11] == a && s3[14..16] == c;
    Outer(s, 28, s9, 24, 26);
    Outer(s, 28, s9, 26, 28);
    Outer(s9, 24, s7, 20, 22);
    Outer(s9, 24, s7, 22, 24);
    Outer(s7, 20, s5, 16, 18);
    Outer(s7, 20, s5, 18, 20);
    Outer(s5, 16, s3, 14, 16);
    Outer(s5, 16, s3, 0, 11);
    Outer(s7, 20, s5, 14, 16);
    Outer(s9, 24, s7, 14, 16);
    Outer(s9, 24, s7, 16, 18);
    Outer(s9, 24, s7, 18, 20);
    Outer(s, 28, s9, 14, 16);
    Outer(s, 28, s9, 16, 18);
    Outer(s, 28, s9, 18, 20);
    Outer(s, 28, s9, 20, 22);
    Outer(s, 28, s9, 22, 24);
  }

  lemma Outer(s: seq<byte>, n: nat, t: seq<byte>, lo: nat, hi: nat)
    requires n <= |s| && s[..n] == t && lo <= hi <= n
    ensures s[lo..hi] == t[lo..hi]
  {}

  /** Every 32 bytes are an entry, and writing the entry back changes none of them. */
  lemma EntryBytes(b: seq<byte>)
    requires |b| == 32
    ensures WellTyped(DecodeEntry(b))
    ensures EncodeEntry(DecodeEntry(b)) == b
  {
    Widths();
    EncodeDecode(b[14..16]);
    EncodeDecode(b[16..18]);
    EncodeDecode(b[18..20]);
    EncodeDecode(b[20..22]);
    EncodeDecode(b[22..24]);
    EncodeDecode(b[24..26]);
    EncodeDecode(b[26..28]);
    EncodeDecode(b[28..32]);
    Reassemble(b);
  }

  lemma Reassemble(b: seq<byte>)
    requires |b| == 32
    ensures b == b[..11] + [b[11], b[12], b[13]] + b[14..16] + b[16..18] + b[18..20] + b[20..22]
                 + b[22..24] + b[24..26] + b[26..28] + b[28..32]
  {
    assert b[..11] + [b[11], b[12], b[13]] == b[..14];
    assert b[..14] + b[14..16] == b[..16];
    assert b[..16] + b[16..18] == b[..18];
    assert b[..18] + b[18..20] == b[..20];
    assert b[..20] + b[20..22] == b[..22];
    assert b[..22] + b[22..24] == b[..24];
    assert b[..24] + b[24..26] == b[..26];
    assert b[..26] + b[26..28] == b[..28];
    assert b[..28] + b[28..32] == b;
  }

  /** Where each field lies, byte by byte, numbers with the low byte first. Since encoding and
      decoding are inverse, this fixes both. */
  lemma FieldPlaces(b: seq<byte>)
    requires |b| == 32
    ensures var e := DecodeEntry(b);
      && e.name == b[..11] && e.attributes == b[11] && e.reserved == b[12] && e.creationTimeTenth == b[13]
      && e.creationTime == b[14] + 0x100 * b[15] as nat && e.creationDate == b[16] + 0x100 * b[17] as nat
      && e.accessDate == b[18] + 0x100 * b[19] as nat && e.clusterHigh == b[20] + 0x100 * b[21] as nat
      && e.modificationTime == b[22] + 0x100 * b[23] as nat && e.modificationDate == b[24] + 0x100 * b[25] as nat
      && e.clusterLow == b[26] + 0x100 * b[27] as nat
      && e.size == b[28] + 0x100 * b[29] as nat + 0x1_0000 * b[30] as nat + 0x100_0000 * b[31] as nat
  {
    hide Decode;
    LowByteFirst(b[14..16]);
    LowByteFirst(b[16..18]);
    LowByteFirst(b[18..20]);
    LowByteFirst(b[20..22]);
    LowByteFirst(b[22..24]);
    LowByteFirst(b[24..26]);
    LowByteFirst(b[26..28]);
    LowByteFirst(b[28..32]);
  }

  /** FAT32 keeps the start cluster in two halves. */
  function SetStart(e: Entry, cluster: nat): Entry {
    e.(clusterHigh := cluster / 0x10000 % 0x10000, clusterLow := cluster % 0x10000)
  }

  function GetStart(e: Entry): nat {
    e.clusterHigh * 0x10000 + e.clusterLow
  }

  lemma StartRoundTrip(e: Entry, cluster: nat)
    ensures GetStart(SetStart(e, cluster)) == cluster % 0x1_0000_0000
  {}
}
