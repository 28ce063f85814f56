// The dependency-free grayscale PNG encoder, with the strict reader it is proved
// against: chunks of section 3 of RFC 2083, the zlib stream of section 2.2 of RFC 1950
// and stored DEFLATE blocks of section 3.2.4 of RFC 1951.
module Png {
  import opened Prelude
  import opened Checksums

  const TWO_32: nat := 0x1_0000_0000
  const MAX_STORED: nat := 0xFFFF

  // -- Numbers as bytes -------------------------------------------------------------

  function OctetBit(n: nat, mask: octet): octet {
    if n % 2 == 1 then mask else 0
  }

  // The low eight bits of n.
  function Octet(n: nat): octet {
    var n1 := n / 2;
    var n2 := n1 / 2;
    var n3 := n2 / 2;
    var n4 := n3 / 2;
    var n5 := n4 / 2;
    var n6 := n5 / 2;
    var n7 := n6 / 2;
    OctetBit(n, 1) | OctetBit(n1, 2) | OctetBit(n2, 4) | OctetBit(n3, 8)
      | OctetBit(n4, 16) | OctetBit(n5, 32) | OctetBit(n6, 64) | OctetBit(n7, 128)
  }

  lemma OctetValue(n: nat)
    ensures Value(Octet(n)) == n % 256
  {
    hide BitAt, OctetBit;
    var n1 := n / 2;
    var n2 := n1 / 2;
    var n3 := n2 / 2;
    var n4 := n3 / 2;
    var n5 := n4 / 2;
    var n6 := n5 / 2;
    var n7 := n6 / 2;
    BitOfBit(n, 1);
    BitOfBit(n1, 2);
    BitOfBit(n2, 4);
    BitOfBit(n3, 8);
    BitOfBit(n4, 16);
    BitOfBit(n5, 32);
    BitOfBit(n6, 64);
    BitOfBit(n7, 128);
    OctetBits(OctetBit(n, 1), OctetBit(n1, 2), OctetBit(n2, 4), OctetBit(n3, 8),
      OctetBit(n4, 16), OctetBit(n5, 32), OctetBit(n6, 64), OctetBit(n7, 128));
    BinaryDigits(n, n1, n2, n3, n4, n5, n6, n7);
  }

  lemma BitOfBit(n: nat, mask: octet)
    requires mask != 0
    ensures BitAt(OctetBit(n, mask), mask) == n % 2
    ensures OctetBit(n, mask) == 0 || OctetBit(n, mask) == mask
  {
  }

  lemma OctetBits(b0: octet, b1: octet, b2: octet, b3: octet, b4: octet, b5: octet, b6: octet, b7: octet)
    requires (b0 == 0 || b0 == 1) && (b1 == 0 || b1 == 2) && (b2 == 0 || b2 == 4) && (b3 == 0 || b3 == 8)
    requires (b4 == 0 || b4 == 16) && (b5 == 0 || b5 == 32) && (b6 == 0 || b6 == 64) && (b7 == 0 || b7 == 128)
    ensures var b := b0 | b1 | b2 | b3 | b4 | b5 | b6 | b7;
      && BitAt(b, 1) == BitAt(b0, 1) && BitAt(b, 2) == BitAt(b1, 2)
      && BitAt(b, 4) == BitAt(b2, 4) && BitAt(b, 8) == BitAt(b3, 8)
      && BitAt(b, 16) == BitAt(b4, 16) && BitAt(b, 32) == BitAt(b5, 32)
      && BitAt(b, 64) == BitAt(b6, 64) && BitAt(b, 128) == BitAt(b7, 128)
  {
  }

  lemma BinaryDigits(n: nat, n1: nat, n2: nat, n3: nat, n4: nat, n5: nat, n6: nat, n7: nat)
    requires n1 == n / 2 && n2 == n1 / 2 && n3 == n2 / 2 && n4 == n3 / 2
    requires n5 == n4 / 2 && n6 == n5 / 2 && n7 == n6 / 2
    ensures n % 256 == n % 2 + 2 * (n1 % 2) + 4 * (n2 % 2) + 8 * (n3 % 2)
      + 16 * (n4 % 2) + 32 * (n5 % 2) + 64 * (n6 % 2) + 128 * (n7 % 2)
  {
    var r := FourBits(n4, n5, n6, n7, n7 / 2, n4 % 2, n5 % 2, n6 % 2, n7 % 2);
    var r' := FourBits(n, n1, n2, n3, n4, n % 2, n1 % 2, n2 % 2, n3 % 2);
    Remainder(n, n7 / 2, r' + 16 * r);
  }

  lemma FourBits(n: nat, n1: nat, n2: nat, n3: nat, n4: nat, d0: nat, d1: nat, d2: nat, d3: nat) returns (r: nat)
    requires n == 2 * n1 + d0 && n1 == 2 * n2 + d1 && n2 == 2 * n3 + d2 && n3 == 2 * n4 + d3
    requires d0 < 2 && d1 < 2 && d2 < 2 && d3 < 2
    ensures r == d0 + 2 * d1 + 4 * d2 + 8 * d3 < 16 && n == 16 * n4 + r
  {
    r := d0 + 2 * d1 + 4 * d2 + 8 * d3;
  }

  lemma Remainder(n: nat, q: nat, r: nat)
    requires n == 256 * q + r && r < 256
    ensures n % 256 == r
  {
  }

  // The low 32 bits of n, most significant byte first.
  function Big32(n: nat): (r: octets)
    ensures |r| == 4
  {
    [Octet(n / 0x100_0000), Octet(n / 0x1_0000), Octet(n / 0x100), Octet(n)]
  }

  function FromBig32(s: octets): nat
    requires |s| == 4
  {
    Value(s[0]) * 0x100_0000 + Value(s[1]) * 0x1_0000 + Value(s[2]) * 0x100 + Value(s[3])
  }

  lemma Big32RoundTrip(n: nat)
    ensures FromBig32(Big32(n)) == n % TWO_32
  {
    hide Value, Octet;
    OctetValue(n / 0x100_0000);
    OctetValue(n / 0x1_0000);
    OctetValue(n / 0x100);
    OctetValue(n);
    FourDigits(n);
  }

  lemma FourDigits(n: nat)
    ensures n % TWO_32
         == n / 0x100_0000 % 256 * 0x100_0000 + n / 0x1_0000 % 256 * 0x1_0000 + n / 0x100 % 256 * 0x100 + n % 256
  {
    var a := n / 0x100;
    var b := a / 0x100;
    var c := b / 0x100;
    assert n / 0x1_0000 == b && n / 0x100_0000 == c;
    assert n == 0x100 * a + n % 256 && a == 0x100 * b + a % 256 && b == 0x100 * c + b % 256;
    assert n - c * 0x100_0000 == b % 256 * 0x1_0000 + a % 256 * 0x100 + n % 256;
    assert c == c / 256 * 256 + c % 256;
  }

  function Little16(n: nat): (r: octets)
    ensures |r| == 2
  {
    [Octet(n), Octet(n / 0x100)]
  }

  function FromLittle16(s: octets): nat
    requires |s| == 2
  {
    Value(s[0]) + Value(s[1]) * 0x100
  }

  lemma Little16RoundTrip(n: nat)
    requires n < 0x1_0000
    ensures FromLittle16(Little16(n)) == n
  {
    hide Value, Octet;
    OctetValue(n);
    OctetValue(n / 0x100);
  }

  function CrcBytes(crc: bv32): (r: octets)
    ensures |r| == 4
  {
    [((crc >> 24) & 0xFF) as bv8, ((crc >> 16) & 0xFF) as bv8, ((crc >> 8) & 0xFF) as bv8, (crc & 0xFF) as bv8]
  }

  function FromCrcBytes(s: octets): bv32
    requires |s| == 4
  {
    ((s[0] as bv32) << 24) | ((s[1] as bv32) << 16) | ((s[2] as bv32) << 8) | (s[3] as bv32)
  }

  lemma CrcBytesRoundTrip(crc: bv32)
    ensures FromCrcBytes(CrcBytes(crc)) == crc
  {
  }

  // -- Encoding -----------------------------------------------------------------------

  function Chunk(kind: octets, data: octets): octets {
    Big32(|data|) + kind + data + CrcBytes(Crc32(kind + data))
  }

  function StoredBlock(d: octets, final: bool): octets
    requires |d| <= MAX_STORED
  {
    [if final then 1 else 0] + Little16(|d|) + Little16(MAX_STORED - |d|) + d
  }

  function Stored(d: octets): octets {
    if d == [] then []
    else if |d| <= MAX_STORED then StoredBlock(d, true)
    else StoredBlock(d[..MAX_STORED], false) + Stored(d[MAX_STORED..])
  }

  function ZlibStore(d: octets): octets {
    [0x78, 0x01] + Stored(d) + Big32(Adler32(d))
  }

  // Scanlines of `width` samples, each behind filter byte 0.
  function Scanlines(gray: octets, width: nat): octets
    requires width > 0
    decreases |gray|
  {
    if gray == [] then []
    else if |gray| <= width then [0] + gray
    else [0] + gray[..width] + Scanlines(gray[width..], width)
  }

  const SIGNATURE: octets := [0x89, 0x50, 0x4E, 0x47, 0x0D, 0x0A, 0x1A, 0x0A]
  const IHDR: octets := [0x49, 0x48, 0x44, 0x52]
  const IDAT: octets := [0x49, 0x44, 0x41, 0x54]
  const IEND: octets := [0x49, 0x45, 0x4E, 0x44]
  const GRAY8: octets := [8, 0, 0, 0, 0]

  function Header(width: nat, height: nat): octets {
    Big32(width) + Big32(height) + GRAY8
  }

  function Encode(gray: octets, width: nat, height: nat): octets
    requires width > 0
  {
    SIGNATURE + (Chunk(IHDR, Header(width, height))
      + (Chunk(IDAT, ZlibStore(Scanlines(gray, width))) + Chunk(IEND, [])))
  }

  // -- Reading ------------------------------------------------------------------------

  datatype ChunkRead = ChunkRead(kind: octets, data: octets, rest: octets)

  function ReadChunk(s: octets): (r: Option<ChunkRead>)
    ensures r.Some? ==> |s| == 12 + |r.value.data| + |r.value.rest| && |r.value.kind| == 4
  {
    if |s| < 12 then None
    else
      var n := FromBig32(s[..4]);
      if |s| < 12 + n then None
      else
        var kind, data, crc := s[4..8], s[8..8 + n], s[8 + n..12 + n];
        if FromCrcBytes(crc) != Crc32(kind + data) then None
        else Some(ChunkRead(kind, data, s[12 + n..]))
  }

  // Stored blocks up to and including the one marked final.
  function ReadStored(s: octets): Option<(octets, octets)>
    decreases |s|
  {
    if |s| < 5 || !(s[0] == 0 || s[0] == 1) then None
    else
      var len := FromLittle16(s[1..3]);
      if len + FromLittle16(s[3..5]) != 0xFFFF || |s| < 5 + len then None
      else if s[0] == 1 then Some((s[5..5 + len], s[5 + len..]))
      else
        match ReadStored(s[5 + len..])
        case None => None
        case Some((more, rest)) => Some((s[5..5 + len] + more, rest))
  }

  // Compression method 8, window at most 32K, no preset dictionary, valid check bits.
  predicate ZlibHeader(cmf: octet, flg: octet) {
    var c, f := Value(cmf), Value(flg);
    c % 16 == 8 && c / 16 <= 7 && (c * 256 + f) % 31 == 0 && (f / 32) % 2 == 0
  }

  function ReadZlib(z: octets): Option<octets> {
    if |z| < 2 || !ZlibHeader(z[0], z[1]) then None
    else
      match ReadStored(z[2..])
      case None => None
      case Some((data, rest)) =>
        if |rest| == 4 && FromBig32(rest) == Adler32(data) then Some(data) else None
  }

  function ReadScanlines(raw: octets, width: nat): Option<octets>
    decreases |raw|
  {
    if raw == [] then Some([])
    else if |raw| < 1 + width || raw[0] != 0 then None
    else
      match ReadScanlines(raw[1 + width..], width)
      case None => None
      case Some(more) => Some(raw[1..1 + width] + more)
  }

  datatype Image = Image(width: nat, height: nat, gray: octets)

  function ReadPixels(width: nat, height: nat, s: octets): Option<Image> {
    match ReadChunk(s)
    case None => None
    case Some(ChunkRead(kind, z, rest)) =>
      match ReadChunk(rest)
      case None => None
      case Some(ChunkRead(kind', data', rest')) =>
        if kind != [0x49, 0x44, 0x41, 0x54] || kind' != [0x49, 0x45, 0x4E, 0x44] || data' != [] || rest' != [] then None
        else
          match ReadZlib(z)
          case None => None
          case Some(raw) =>
            match ReadScanlines(raw, width)
            case None => None
            case Some(gray) => if |gray| == width * height then Some(Image(width, height, gray)) else None
  }

  // Eight bits a sample, grayscale, and the only methods there are, without interlacing.
  function ReadHeader(header: octets, rest: octets): Option<Image> {
    if |header| != 13 || header[8..] != [8, 0, 0, 0, 0] then None
    else
      var width, height := FromBig32(header[..4]), FromBig32(header[4..8]);
      if width == 0 || height == 0 then None else ReadPixels(width, height, rest)
  }

  function ReadPng(png: octets): Option<Image> {
    if |png| < 8 || png[..8] != [0x89, 0x50, 0x4E, 0x47, 0x0D, 0x0A, 0x1A, 0x0A] then None
    else
      match ReadChunk(png[8..])
      case None => None
      case Some(ChunkRead(kind, header, rest)) =>
        if kind != [0x49, 0x48, 0x44, 0x52] then None else ReadHeader(header, rest)
  }

  // -- Reading undoes encoding ----------------------------------------------------------

  // A chunk whose length fits its field reads back, whatever follows it; otherwise the
  // length read is the length modulo 2^32.
  lemma ChunkReadsBack(kind: octets, data: octets, rest: octets)
    requires |kind| == 4
    ensures |data| < TWO_32 ==> ReadChunk(Chunk(kind, data) + rest) == Some(ChunkRead(kind, data, rest))
    ensures var r := ReadChunk(Chunk(kind, data) + rest); r.Some? ==> |r.value.data| == |data| % TWO_32
  {
    hide Crc32, CrcBytes, FromCrcBytes, Big32, FromBig32;
    var s := Chunk(kind, data) + rest;
    Big32RoundTrip(|data|);
    assert s[..4] == Big32(|data|);
    if |data| < TWO_32 {
      CrcBytesRoundTrip(Crc32(kind + data));
      var n := |data|;
      assert s[4..8] == kind;
      assert s[8..8 + n] == data;
      assert s[8 + n..12 + n] == CrcBytes(Crc32(kind + data));
      assert s[12 + n..] == rest;
    }
  }

  lemma BlockReadsBack(d: octets, final: bool, rest: octets)
    requires |d| <= MAX_STORED
    ensures var s := StoredBlock(d, final) + rest;
      && |s| >= 5 + |d| && s[0] == (if final then 1 else 0)
      && FromLittle16(s[1..3]) == |d| && FromLittle16(s[3..5]) == MAX_STORED - |d|
      && s[5..5 + |d|] == d && s[5 + |d|..] == rest
  {
    hide Little16, FromLittle16;
    var s := StoredBlock(d, final) + rest;
    Little16RoundTrip(|d|);
    Little16RoundTrip(MAX_STORED - |d|);
    assert s[1..3] == Little16(|d|);
    assert s[3..5] == Little16(MAX_STORED - |d|);
  }

  lemma {:induction false} StoredReadsBack(d: octets, rest: octets)
    requires d != []
    ensures ReadStored(Stored(d) + rest) == Some((d, rest))
    decreases |d|
  {
    hide StoredBlock, FromLittle16;
    if |d| <= MAX_STORED {
      BlockReadsBack(d, true, rest);
    } else {
      var head, tail := d[..MAX_STORED], d[MAX_STORED..];
      StoredReadsBack(tail, rest);
      BlockReadsBack(head, false, Stored(tail) + rest);
      assert Stored(d) + rest == StoredBlock(head, false) + (Stored(tail) + rest);
      assert head + tail == d;
    }
  }

  lemma HeaderIsZlib()
    ensures ZlibHeader(0x78, 0x01)
  {
    assert Value(0x78) == 120 && Value(0x01) == 1;
  }

  // The zlib stream inflates back to its data exactly when there is any: for empty data
  // no block is emitted, and the stream is not a valid one.
  lemma ZlibReadsBack(d: octets)
    ensures ReadZlib(ZlibStore(d)) == if d != [] then Some(d) else None
  {
    hide Adler32, Big32, FromBig32, ReadStored, Stored, ZlibHeader;
    HeaderIsZlib();
    var z, sum := ZlibStore(d), Big32(Adler32(d));
    Big32RoundTrip(Adler32(d));
    assert Adler32(d) < TWO_32;
    if d != [] {
      assert z[2..] == Stored(d) + sum;
      StoredReadsBack(d, sum);
    } else {
      StoredOfNothing();
      assert z[2..] == sum;
      TooShortToStore(sum);
    }
  }

  lemma StoredOfNothing()
    ensures Stored([]) == []
  {
  }

  lemma TooShortToStore(s: octets)
    requires |s| < 5
    ensures ReadStored(s) == None
  {
  }

  lemma OneMoreRow(width: nat, height: nat)
    requires height > 0
    ensures width * height == width + width * (height - 1) && width * (height - 1) >= 0
  {
  }

  // What the first scanline and the rest look like to the reader.
  lemma FirstScanline(gray: octets, width: nat)
    requires width > 0 && |gray| >= width
    ensures var raw := Scanlines(gray, width);
      && |raw| >= 1 + width && raw[0] == 0 && raw[1..1 + width] == gray[..width]
      && raw[1 + width..] == Scanlines(gray[width..], width)
  {
    var row, rows := gray[..width], gray[width..];
    if |gray| == width {
      assert row == gray && rows == [];
    }
    assert Scanlines(gray, width) == [0] + row + Scanlines(rows, width);
  }

  lemma {:induction false} ScanlinesReadBack(gray: octets, width: nat, height: nat)
    requires width > 0 && |gray| == width * height
    ensures ReadScanlines(Scanlines(gray, width), width) == Some(gray)
    ensures |Scanlines(gray, width)| == |gray| + height
    ensures gray == [] <==> height == 0
    decreases height
  {
    hide Scanlines;
    if height > 0 {
      OneMoreRow(width, height);
      FirstScanline(gray, width);
      ScanlinesReadBack(gray[width..], width, height - 1);
      assert gray[..width] + gray[width..] == gray;
    } else {
      NoScanlines(width);
    }
  }

  lemma NoScanlines(width: nat)
    requires width > 0
    ensures Scanlines([], width) == []
  {
  }

  lemma HeaderReadsBack(width: nat, height: nat)
    ensures var h := Header(width, height);
      && |h| == 13 && h[8..] == [8, 0, 0, 0, 0]
      && FromBig32(h[..4]) == width % TWO_32 && FromBig32(h[4..8]) == height % TWO_32
  {
    hide Big32, FromBig32;
    var h := Header(width, height);
    Big32RoundTrip(width);
    Big32RoundTrip(height);
    assert h[..4] == Big32(width) && h[4..8] == Big32(height);
  }

  // A strict reader recovers the image from the pixel data chunks exactly when their
  // length fits the 32-bit length field.
  lemma PixelsReadBack(gray: octets, width: nat, height: nat)
    requires width > 0 && height > 0 && |gray| == width * height
    ensures var z := ZlibStore(Scanlines(gray, width));
      ReadPixels(width, height, Chunk(IDAT, z) + Chunk(IEND, []))
        == if |z| < TWO_32 then Some(Image(width, height, gray)) else None
  {
    hide Chunk, ZlibStore, ReadZlib, Scanlines, ReadScanlines, ReadChunk;
    var raw := Scanlines(gray, width);
    var z := ZlibStore(raw);
    ScanlinesReadBack(gray, width, height);
    ZlibReadsBack(raw);
    ChunkReadsBack(IDAT, z, Chunk(IEND, []));
    ChunkReadsBack(IEND, [], []);
    assert Chunk(IEND, []) + [] == Chunk(IEND, []);
    ChunkLength(IDAT, z);
    ChunkLength(IEND, []);
    if |z| >= TWO_32 {
      TruncatedLengthRefused(z, width, height);
    }
  }

  lemma ChunkLength(kind: octets, data: octets)
    requires |kind| == 4
    ensures |Chunk(kind, data)| == 12 + |data|
  {
  }

  // When the length field overflows, the reader stops short and finds bytes left over.
  lemma TruncatedLengthRefused(z: octets, width: nat, height: nat)
    requires |z| >= TWO_32
    ensures ReadPixels(width, height, Chunk(IDAT, z) + Chunk(IEND, [])) == None
  {
    hide Chunk, ReadZlib, ReadScanlines;
    ChunkReadsBack(IDAT, z, Chunk(IEND, []));
    ChunkLength(IDAT, z);
    ChunkLength(IEND, []);
    hide ReadChunk;
    var s := Chunk(IDAT, z) + Chunk(IEND, []);
    var first := ReadChunk(s);
    if first.Some? {
      var second := ReadChunk(first.value.rest);
    }
  }

  lemma BlockLength(d: octets, final: bool)
    requires |d| <= MAX_STORED
    ensures |StoredBlock(d, final)| == 5 + |d|
  {
  }

  // The length of the stored data: the data, and five bytes per block of up to 65535.
  lemma {:induction false} StoredLength(d: octets)
    ensures |Stored(d)| == |d| + 5 * ((|d| + 65534) / 65535)
    decreases |d|
  {
    hide StoredBlock;
    if |d| > MAX_STORED {
      StoredLength(d[MAX_STORED..]);
      BlockLength(d[..MAX_STORED], false);
    } else if d != [] {
      BlockLength(d, true);
    }
  }

  // The compressed length of an image, from its sides alone: a filter byte per row, five
  // bytes per stored block, and the zlib header and checksum.
  function CompressedLength(width: nat, height: nat): nat {
    var n := width * height + height;
    2 + n + 5 * ((n + 65534) / 65535) + 4
  }

  lemma CompressedLengthIs(gray: octets, width: nat, height: nat)
    requires width > 0 && |gray| == width * height
    ensures |ZlibStore(Scanlines(gray, width))| == CompressedLength(width, height)
  {
    hide Stored, Scanlines, Adler32;
    ScanlinesReadBack(gray, width, height);
    StoredLength(Scanlines(gray, width));
    ZlibLength(Scanlines(gray, width));
  }

  lemma ZlibLength(d: octets)
    ensures |ZlibStore(d)| == 2 + |Stored(d)| + 4
  {
    hide Stored, Adler32;
  }

  lemma EncodedReadsBack(gray: octets, width: nat, height: nat)
    requires width > 0 && |gray| == width * height
    ensures ReadPng(Encode(gray, width, height)) == Some(Image(width, height, gray))
       <==> 0 < height < 0x1_0000_0000 && width < 0x1_0000_0000 && |ZlibStore(Scanlines(gray, width))| < 0x1_0000_0000
  {
    hide Chunk, ReadChunk, ZlibStore, Scanlines, ReadPixels, Header, FromBig32, GRAY8;
    var png := Encode(gray, width, height);
    var header := Header(width, height);
    var tail := Chunk(IDAT, ZlibStore(Scanlines(gray, width))) + Chunk(IEND, []);
    HeaderReadsBack(width, height);
    assert png[..8] == SIGNATURE && png[8..] == Chunk(IHDR, header) + tail;
    ChunkReadsBack(IHDR, header, tail);
    var w, h := width % TWO_32, height % TWO_32;
    ReadPixelsSize(w, h, tail);
    if height > 0 && width < TWO_32 && height < TWO_32 {
      PixelsReadBack(gray, width, height);
    }
  }

  // Round trip, with its exact limits: for any image of positive width whose buffer has
  // the stated size, reading recovers (width, height, gray) from the encoding if and only
  // if the height is positive and both sides and the compressed length fit 32 bits.
  lemma PngRoundTrip(gray: octets, width: nat, height: nat)
    requires width > 0 && |gray| == width * height
    ensures ReadPng(Encode(gray, width, height)) == Some(Image(width, height, gray))
       <==> 0 < height < 0x1_0000_0000 && width < 0x1_0000_0000 && CompressedLength(width, height) < 0x1_0000_0000
  {
    hide *;
    EncodedReadsBack(gray, width, height);
    CompressedLengthIs(gray, width, height);
  }

  lemma ReadPixelsSize(width: nat, height: nat, s: octets)
    ensures var r := ReadPixels(width, height, s);
      r.Some? ==> r.value.width == width && r.value.height == height
  {
  }

  // A chunk damaged within any four consecutive bytes of its type and data, with its
  // length and CRC fields intact, is refused.
  lemma DamagedChunkRefused(kind: octets, data: octets, kind': octets, data': octets, i: nat, rest: octets)
    requires |kind| == |kind'| == 4 && |data| == |data'| < TWO_32
    requires kind + data != kind' + data' && DifferOnlyWithin(kind + data, kind' + data', i, 4)
    ensures ReadChunk(Big32(|data|) + kind' + data' + CrcBytes(Crc32(kind + data)) + rest) == None
  {
    hide Crc32, CrcBytes, FromCrcBytes, Big32, FromBig32;
    var s := Big32(|data|) + kind' + data' + CrcBytes(Crc32(kind + data)) + rest;
    var n := |data|;
    Big32RoundTrip(n);
    CrcBytesRoundTrip(Crc32(kind + data));
    BurstDetected(kind + data, kind' + data', i);
    assert s[..4] == Big32(n);
    assert s[4..8] == kind';
    assert s[8..8 + n] == data';
    assert s[8 + n..12 + n] == CrcBytes(Crc32(kind + data));
  }

  // -- The encoder as it runs --------------------------------------------------------

  method WriteChunk(out: octets, kind: octets, data: octets) returns (r: octets)
    requires |kind| == 4
    ensures r == out + Chunk(kind, data)
  {
    hide Crc32, Big32, CrcBytes;
    r := out + Big32(|data|);
    r := r + kind;
    r := r + data;
    var crc := ComputeCrc32(kind + data);
    r := r + CrcBytes(crc);
  }

  lemma StoredStep(data: octets, offset: nat, chunk: octets)
    requires offset < |data| && chunk == data[offset..Min(offset + MAX_STORED, |data|)]
    ensures Stored(data[offset..])
         == StoredBlock(chunk, offset + |chunk| == |data|) + Stored(data[offset + |chunk|..])
  {
    hide StoredBlock;
    var left := data[offset..];
    assert left[..|chunk|] == chunk && left[|chunk|..] == data[offset + |chunk|..];
    if |left| <= MAX_STORED {
      assert left == chunk && left[|chunk|..] == [];
      assert StoredBlock(chunk, true) + [] == StoredBlock(chunk, true);
    }
  }

  method WriteZlib(data: octets) returns (z: octets)
    ensures z == ZlibStore(data)
  {
    hide Adler32, Big32, Little16, Stored;
    StoredOfNothing();
    z := [0x78, 0x01];
    var offset := 0;
    while offset < |data|
      invariant offset <= |data|
      invariant z + Stored(data[offset..]) == [0x78, 0x01] + Stored(data)
    {
      var chunk := data[offset..Min(offset + MAX_STORED, |data|)];
      var isFinal := offset + |chunk| == |data|;
      StoredStep(data, offset, chunk);
      ghost var before := z;
      z := z + [if isFinal then 1 else 0];
      z := z + Little16(|chunk|);
      z := z + Little16(MAX_STORED - |chunk|);
      z := z + chunk;
      assert z == before + StoredBlock(chunk, isFinal);
      offset := offset + |chunk|;
    }
    assert data[offset..] == [];
    assert z + [] == z;
    var sum := ComputeAdler32(data);
    z := z + Big32(sum);
  }

  lemma ScanlineStep(gray: octets, width: nat, at: nat, row: octets)
    requires width > 0 && at < |gray| && row == gray[at..Min(at + width, |gray|)]
    ensures Scanlines(gray[at..], width) == [0] + row + Scanlines(gray[at + |row|..], width)
  {
    var left := gray[at..];
    assert left[..|row|] == row && left[|row|..] == gray[at + |row|..];
  }

  method FilterRows(gray: octets, width: nat) returns (raw: octets)
    requires width > 0
    ensures raw == Scanlines(gray, width)
  {
    hide Scanlines;
    NoScanlines(width);
    raw := [];
    var at := 0;
    while at < |gray|
      invariant at <= |gray|
      invariant raw + Scanlines(gray[at..], width) == Scanlines(gray, width)
    {
      var row := gray[at..Min(at + width, |gray|)];
      ScanlineStep(gray, width, at, row);
      raw := raw + [0];
      raw := raw + row;
      at := at + |row|;
    }
    assert gray[at..] == [];
    assert raw + [] == raw;
  }

  method EncodeGrayPng(gray: octets, width: nat, height: nat) returns (png: octets)
    requires width > 0 && |gray| == width * height
    ensures png == Encode(gray, width, height)
  {
    hide Chunk, ZlibStore, Big32, Scanlines;
    var ihdr := Big32(width);
    ihdr := ihdr + Big32(height);
    ihdr := ihdr + GRAY8;
    png := WriteChunk(SIGNATURE, IHDR, ihdr);
    var raw := FilterRows(gray, width);
    var z := WriteZlib(raw);
    png := WriteChunk(png, IDAT, z);
    png := WriteChunk(png, IEND, []);
  }
}
