/** Writing a canvas as a PNG file (scripts/hive/generate_sprites.py, `png_chunk` and
    `write_png`) and reading one back as RFC 2083 says a decoder does. */
module Png {
  import opened Text
  import opened Raster

  type bytes = seq<byte>
  type Rows = seq<seq<Pixel>>

  /** zlib and its CRC, which are not part of this model: all that is used of them is that
      decompression undoes compression and that a CRC fits in 32 bits. */
  datatype Zlib = Zlib(compress: bytes -> bytes, decompress: bytes -> Option<bytes>, crc: bytes -> nat) {
    ghost predicate Valid() {
      && (forall s :: decompress(compress(s)) == Some(s))
      && (forall s :: crc(s) < LIMIT)
    }
  }

  const LIMIT: nat := 0x1_0000_0000

  // ---------------------------------------------------------------- writing

  /** `struct.pack(">I", n)`; section 2.1 of RFC 2083, network byte order. */
  function BigEndian(n: nat): (b: bytes)
    requires n < LIMIT
    ensures |b| == 4
  {
    var h, m, t := n / 256, n / 256 / 256, n / 256 / 256 / 256;
    [t as byte, (m % 256) as byte, (h % 256) as byte, (n % 256) as byte]
  }

  const SIGNATURE: bytes := [0x89, 0x50, 0x4E, 0x47, 0x0D, 0x0A, 0x1A, 0x0A]
  const IHDR: bytes := [0x49, 0x48, 0x44, 0x52]
  const IDAT: bytes := [0x49, 0x44, 0x41, 0x54]
  const IEND: bytes := [0x49, 0x45, 0x4E, 0x44]

  /** Length, type, data and the CRC of type and data; section 3.2 of RFC 2083. */
  function PngChunk(z: Zlib, tag: bytes, data: bytes): bytes
    requires z.Valid() && |data| < LIMIT
  {
    BigEndian(|data|) + tag + data + BigEndian(z.crc(tag + data))
  }

  function PixelBytes(p: Pixel): bytes {
    [p.r, p.g, p.b, p.a]
  }

  function RowBytes(row: seq<Pixel>): (b: bytes)
    ensures |b| == 4 * |row|
  {
    if row == [] then [] else PixelBytes(row[0]) + RowBytes(row[1..])
  }

  /** Every row after a zero filter byte; sections 2.3 and 6.2 of RFC 2083. */
  function Raw(rows: Rows): bytes {
    if rows == [] then [] else [0] + RowBytes(rows[0]) + Raw(rows[1..])
  }

  function Header(width: nat, height: nat): bytes
    requires width < LIMIT && height < LIMIT
  {
    BigEndian(width) + BigEndian(height) + [8, 6, 0, 0, 0]
  }

  function Encoded(z: Zlib, width: nat, height: nat, data: bytes): bytes
    requires z.Valid() && width < LIMIT && height < LIMIT && |data| < LIMIT
  {
    SIGNATURE + (PngChunk(z, IHDR, Header(width, height)) + (PngChunk(z, IDAT, data) + PngChunk(z, IEND, [])))
  }

  lemma {:induction false} RowBytesAppend(row: seq<Pixel>, p: Pixel)
    ensures RowBytes(row + [p]) == RowBytes(row) + PixelBytes(p)
  {
    if row == [] {
      assert row + [p] == [p];
      assert RowBytes([p][1..]) == [];
    } else {
      assert (row + [p])[1..] == row[1..] + [p];
      RowBytesAppend(row[1..], p);
    }
  }

  lemma {:induction false} RawAppend(rows: Rows, row: seq<Pixel>)
    ensures Raw(rows + [row]) == Raw(rows) + [0] + RowBytes(row)
  {
    if rows == [] {
      assert rows + [row] == [row];
      assert Raw([row][1..]) == [];
    } else {
      assert (rows + [row])[1..] == rows[1..] + [row];
      RawAppend(rows[1..], row);
    }
  }

  /** The file's bytes; `None` where a size does not fit the format and packing it raises. */
  method WritePng(z: Zlib, width: nat, height: nat, rows: Rows) returns (png: Option<bytes>)
    requires z.Valid()
    ensures var data := z.compress(Raw(rows));
            png == if width < LIMIT && height < LIMIT && |data| < LIMIT
                   then Some(Encoded(z, width, height, data)) else None
  {
    var raw: bytes := [];
    var i := 0;
    while i < |rows|
      invariant 0 <= i <= |rows|
      invariant raw == Raw(rows[..i])
    {
      var row := rows[i];
      raw := raw + [0];
      var j := 0;
      while j < |row|
        invariant 0 <= j <= |row|
        invariant raw == Raw(rows[..i]) + [0] + RowBytes(row[..j])
      {
        RowBytesAppend(row[..j], row[j]);
        assert row[..j + 1] == row[..j] + [row[j]];
        var p := row[j];
        raw := raw + [p.r, p.g, p.b, p.a];
        j := j + 1;
      }
      assert row[..j] == row;
      RawAppend(rows[..i], row);
      assert rows[..i + 1] == rows[..i] + [row];
      i := i + 1;
    }
    assert rows[..i] == rows;
    var compressed := z.compress(raw);
    if width >= LIMIT || height >= LIMIT || |compressed| >= LIMIT {
      return None;
    }
    var ihdr := BigEndian(width) + BigEndian(height) + [8, 6, 0, 0, 0];
    png := Some(SIGNATURE + (PngChunk(z, IHDR, ihdr) + (PngChunk(z, IDAT, compressed) + PngChunk(z, IEND, []))));
  }

  // ---------------------------------------------------------------- reading

  function Number(b: bytes): nat
    requires |b| == 4
  {
    ((b[0] as nat * 256 + b[1] as nat) * 256 + b[2] as nat) * 256 + b[3] as nat
  }

  datatype Chunk = Chunk(tag: bytes, data: bytes)

  /** Chunks up to the end of the file, every CRC checked; sections 3.1 and 3.2 of RFC 2083. */
  function ReadChunks(z: Zlib, b: bytes): Option<seq<Chunk>>
    decreases |b|
  {
    if b == [] then Some([])
    else if |b| < 12 then None
    else
      var n := Number(b[..4]);
      if |b| < n + 12 then None
      else
        var tag, data := b[4..8], b[8..8 + n];
        if Number(b[8 + n..12 + n]) != z.crc(tag + data) then None
        else
          match ReadChunks(z, b[12 + n..])
          case None => None
          case Some(rest) => Some([Chunk(tag, data)] + rest)
  }

  function ReadRow(b: bytes): seq<Pixel>
    requires |b| % 4 == 0
  {
    if b == [] then [] else [Pixel(b[0], b[1], b[2], b[3])] + ReadRow(b[4..])
  }

  /** Scanlines of `width` RGBA pixels, all with filter type zero. */
  function ReadRows(b: bytes, width: nat, height: nat): Option<Rows>
    decreases height
  {
    if height == 0 then if b == [] then Some([]) else None
    else if |b| < 1 + 4 * width || b[0] != 0 then None
    else
      match ReadRows(b[1 + 4 * width..], width, height - 1)
      case None => None
      case Some(rest) => Some([ReadRow(b[1..1 + 4 * width])] + rest)
  }

  /** The data of the IDAT chunks, run together; section 4.1.3 of RFC 2083. */
  function ImageData(chunks: seq<Chunk>): Option<bytes> {
    if chunks == [] then Some([])
    else if chunks[0].tag != IDAT then None
    else
      match ImageData(chunks[1..])
      case None => None
      case Some(rest) => Some(chunks[0].data + rest)
  }

  datatype Image = Image(width: nat, height: nat, rows: Rows)

  /** A decoder for eight-bit RGBA without interlace; section 4.1.1 of RFC 2083. */
  function Decode(z: Zlib, b: bytes): Option<Image> {
    if |b| < 8 || b[..8] != SIGNATURE then None
    else
      match ReadChunks(z, b[8..])
      case None => None
      case Some(chunks) =>
        var n := |chunks|;
        if n < 3 || chunks[0].tag != IHDR || |chunks[0].data| != 13 || chunks[0].data[8..] != [8, 6, 0, 0, 0]
           || chunks[n - 1] != Chunk(IEND, []) then None
        else
          var width, height := Number(chunks[0].data[..4]), Number(chunks[0].data[4..8]);
          match ImageData(chunks[1..n - 1])
          case None => None
          case Some(data) =>
            match z.decompress(data)
            case None => None
            case Some(raw) =>
              match ReadRows(raw, width, height)
              case None => None
              case Some(rows) => Some(Image(width, height, rows))
  }

  lemma NumberOfBigEndian(n: nat)
    requires n < LIMIT
    ensures Number(BigEndian(n)) == n
  {
  }

  lemma ReadWrittenChunk(z: Zlib, tag: bytes, data: bytes, rest: bytes)
    requires z.Valid() && |tag| == 4 && |data| < LIMIT
    ensures ReadChunks(z, PngChunk(z, tag, data) + rest)
         == match ReadChunks(z, rest) case None => None case Some(r) => Some([Chunk(tag, data)] + r)
  {
    hide BigEndian, Number;
    var n := |data|;
    var b := PngChunk(z, tag, data) + rest;
    NumberOfBigEndian(n);
    NumberOfBigEndian(z.crc(tag + data));
    assert b[..4] == BigEndian(n);
    assert b[4..8] == tag;
    assert b[8..8 + n] == data;
    assert b[8 + n..12 + n] == BigEndian(z.crc(tag + data));
    assert b[12 + n..] == rest;
  }

  lemma {:induction false} ReadWrittenRow(row: seq<Pixel>)
    ensures ReadRow(RowBytes(row)) == row
  {
    if row == [] {
    } else {
      ReadWrittenRow(row[1..]);
      assert RowBytes(row)[4..] == RowBytes(row[1..]);
      assert row == [row[0]] + row[1..];
    }
  }

  lemma {:induction false} ReadWrittenRows(rows: Rows, width: nat)
    requires forall i | 0 <= i < |rows| :: |rows[i]| == width
    ensures ReadRows(Raw(rows), width, |rows|) == Some(rows)
  {
    if rows == [] {
    } else {
      ReadWrittenRow(rows[0]);
      ReadWrittenRows(rows[1..], width);
      var b := Raw(rows);
      assert b[1..1 + 4 * width] == RowBytes(rows[0]);
      assert b[1 + 4 * width..] == Raw(rows[1..]);
      assert rows == [rows[0]] + rows[1..];
    }
  }

  lemma EncodedChunks(z: Zlib, width: nat, height: nat, data: bytes)
    requires z.Valid() && width < LIMIT && height < LIMIT && |data| < LIMIT
    ensures var b := Encoded(z, width, height, data);
            && |b| >= 8 && b[..8] == SIGNATURE
            && ReadChunks(z, b[8..]) == Some([Chunk(IHDR, Header(width, height)), Chunk(IDAT, data), Chunk(IEND, [])])
  {
    hide ReadChunks, PngChunk;
    var b := Encoded(z, width, height, data);
    var end := PngChunk(z, IEND, []);
    var body := PngChunk(z, IDAT, data) + end;
    assert b[8..] == PngChunk(z, IHDR, Header(width, height)) + body;
    assert end == end + [];
    assert ReadChunks(z, []) == Some([]) by { NoChunks(z); }
    ReadWrittenChunk(z, IEND, [], []);
    ReadWrittenChunk(z, IDAT, data, end);
    ReadWrittenChunk(z, IHDR, Header(width, height), body);
    var x, y, e := Chunk(IHDR, Header(width, height)), Chunk(IDAT, data), Chunk(IEND, []);
    assert [x] + ([y] + ([e] + [])) == [x, y, e];
  }

  lemma NoChunks(z: Zlib)
    ensures ReadChunks(z, []) == Some([])
  {
  }

  /** Four bytes of a file that spell a number, the highest first. */
  ghost predicate Spells(b: bytes, at: nat, n: nat) {
    && at + 4 <= |b|
    && n == b[at] as nat * 0x100_0000 + b[at + 1] as nat * 0x1_0000 + b[at + 2] as nat * 0x100 + b[at + 3] as nat
  }

  lemma BigEndianSpells(b: bytes, at: nat, n: nat)
    requires n < LIMIT && at + 4 <= |b| && b[at..at + 4] == BigEndian(n)
    ensures Spells(b, at, n)
  {
    var d := BigEndian(n);
    assert forall i | 0 <= i < 4 :: b[at + i] == b[at..at + 4][i] == d[i];
    assert b[at] == d[0] && b[at + 1] == d[1] && b[at + 2] == d[2] && b[at + 3] == d[3];
  }

  lemma SubSlice(b: bytes, at: nat, n: nat, i: nat, j: nat)
    requires i <= j <= n && at + n <= |b|
    ensures b[at + i..at + j] == b[at..at + n][i..j]
  {
    var x, y, c := b[at + i..at + j], b[at..at + n][i..j], b[at..at + n];
    assert |x| == |y| == j - i;
    forall k | 0 <= k < j - i ensures x[k] == y[k] {
      assert x[k] == b[at + i + k] && y[k] == c[i + k] && c[i + k] == b[at + (i + k)];
    }
  }

  lemma ChunkParts(size: bytes, tag: bytes, data: bytes, crc: bytes, c: bytes)
    requires |size| == |tag| == |crc| == 4 && c == size + tag + data + crc
    ensures var n := |data|;
            && |c| == n + 12 && c[0..4] == size && c[4..8] == tag && c[8..8 + n] == data
            && c[4..8 + n] == tag + data && c[8 + n..12 + n] == crc
  {
  }

  /** A chunk, wherever it stands in a file. */
  lemma ChunkBytes(z: Zlib, b: bytes, at: nat, tag: bytes, data: bytes)
    requires z.Valid() && |tag| == 4 && |data| < LIMIT
    requires at + |data| + 12 <= |b| && b[at..at + |data| + 12] == PngChunk(z, tag, data)
    ensures Spells(b, at, |data|) && b[at + 4..at + 8] == tag && b[at + 8..at + 8 + |data|] == data
    ensures Spells(b, at + 8 + |data|, z.crc(b[at + 4..at + 8 + |data|]))
  {
    hide BigEndian, Spells;
    var n, c := |data|, b[at..at + |data| + 12];
    ChunkParts(BigEndian(n), tag, data, BigEndian(z.crc(tag + data)), c);
    SubSlice(b, at, n + 12, 0, 4);
    SubSlice(b, at, n + 12, 4, 8);
    SubSlice(b, at, n + 12, 8, 8 + n);
    SubSlice(b, at, n + 12, 4, 8 + n);
    SubSlice(b, at, n + 12, 8 + n, 12 + n);
    BigEndianSpells(b, at, n);
    BigEndianSpells(b, at + 8 + n, z.crc(tag + data));
  }

  lemma HeaderSpells(width: nat, height: nat)
    requires width < LIMIT && height < LIMIT
    ensures var h := Header(width, height);
            |h| == 13 && Spells(h, 0, width) && Spells(h, 4, height) && h[8..] == [8, 6, 0, 0, 0]
  {
    hide BigEndian, Spells;
    var h := Header(width, height);
    assert h[0..4] == BigEndian(width) && h[4..8] == BigEndian(height);
    BigEndianSpells(h, 0, width);
    BigEndianSpells(h, 4, height);
  }

  /** The whole file, byte by byte; sections 3.1, 3.2, 4.1.1, 4.1.3 and 4.1.4 of RFC 2083. */
  lemma FileBytes(z: Zlib, width: nat, height: nat, data: bytes)
    requires z.Valid() && width < LIMIT && height < LIMIT && |data| < LIMIT
    ensures var b, n := Encoded(z, width, height, data), |data|;
            && |b| == n + 57
            && b[..8] == [137, 80, 78, 71, 13, 10, 26, 10]
            && Spells(b, 8, 13) && b[12..16] == [73, 72, 68, 82]
            && Spells(b[16..29], 0, width) && Spells(b[16..29], 4, height) && b[16..29][8..] == [8, 6, 0, 0, 0]
            && Spells(b, 29, z.crc(b[12..29]))
            && Spells(b, 33, n) && b[37..41] == [73, 68, 65, 84] && b[41..41 + n] == data
            && Spells(b, 41 + n, z.crc(b[37..41 + n]))
            && Spells(b, 45 + n, 0) && b[49 + n..53 + n] == [73, 69, 78, 68]
            && Spells(b, 53 + n, z.crc(b[49 + n..53 + n]))
  {
    hide BigEndian, Spells, Header;
    var b, n := Encoded(z, width, height, data), |data|;
    HeaderSpells(width, height);
    var x, y, e := PngChunk(z, IHDR, Header(width, height)), PngChunk(z, IDAT, data), PngChunk(z, IEND, []);
    assert |x| == 25 && |y| == n + 12 && |e| == 12;
    hide PngChunk;
    FileParts(b, SIGNATURE, x, y, e);
    ChunkBytes(z, b, 8, IHDR, Header(width, height));
    ChunkBytes(z, b, 33, IDAT, data);
    ChunkBytes(z, b, 45 + n, IEND, []);
  }

  lemma FileParts(b: bytes, s: bytes, x: bytes, y: bytes, e: bytes)
    requires b == s + (x + (y + e))
    ensures var (i, j, k) := (|s|, |s| + |x|, |s| + |x| + |y|);
            b[..i] == s && b[i..j] == x && b[j..k] == y && b[k..k + |e|] == e && |b| == k + |e|
  {
  }

  /** The bytes of a row, pixel by pixel and channel by channel. */
  lemma {:induction false} RowBytesAre(row: seq<Pixel>, x: nat)
    requires x < |row|
    ensures RowBytes(row)[4 * x..4 * x + 4] == [row[x].r, row[x].g, row[x].b, row[x].a]
  {
    if x == 0 {
    } else {
      RowBytesAre(row[1..], x - 1);
      assert RowBytes(row)[4 * x..4 * x + 4] == RowBytes(row[1..])[4 * (x - 1)..4 * (x - 1) + 4];
    }
  }

  /** The uncompressed data: row after row, a zero and then the bytes of the row. */
  lemma {:induction false} RawIs(rows: Rows, i: nat)
    requires i < |rows|
    ensures Raw(rows) == Raw(rows[..i]) + [0] + RowBytes(rows[i]) + Raw(rows[i + 1..])
  {
    if i == 0 {
      assert rows[..0] == [];
    } else {
      RawIs(rows[1..], i - 1);
      assert rows[1..][..i - 1] == rows[1..i] && rows[1..][i - 1 + 1..] == rows[i + 1..];
      assert rows[..i][1..] == rows[1..i] && rows[..i][0] == rows[0];
    }
  }

  /** Decoding the written file returns exactly the canvas. */
  lemma DecodeEncoded(z: Zlib, width: nat, rows: Rows)
    requires z.Valid() && width < LIMIT && |rows| < LIMIT && |z.compress(Raw(rows))| < LIMIT
    requires forall i | 0 <= i < |rows| :: |rows[i]| == width
    ensures Decode(z, Encoded(z, width, |rows|, z.compress(Raw(rows)))) == Some(Image(width, |rows|, rows))
  {
    hide ReadChunks, Encoded, BigEndian, Number, ReadRows, Raw;
    var data := z.compress(Raw(rows));
    EncodedChunks(z, width, |rows|, data);
    var header := Header(width, |rows|);
    assert header[..4] == BigEndian(width) && header[4..8] == BigEndian(|rows|) && header[8..] == [8, 6, 0, 0, 0];
    NumberOfBigEndian(width);
    NumberOfBigEndian(|rows|);
    var chunks := [Chunk(IHDR, header), Chunk(IDAT, data), Chunk(IEND, [])];
    assert chunks[1..2] == [Chunk(IDAT, data)];
    assert ImageData(chunks[1..2]) == Some(data) by {
      assert chunks[1..2][1..] == [];
      assert data + [] == data;
    }
    ReadWrittenRows(rows, width);
  }

  /** The canvas as rows, read from the pixels drawn in place. */
  function Canvas(px: array2<Pixel>): (rows: Rows)
    reads px
    ensures |rows| == px.Length0 && forall i | 0 <= i < |rows| :: |rows[i]| == px.Length1
  {
    seq(px.Length0, i requires 0 <= i < px.Length0 reads px =>
      seq(px.Length1, j requires 0 <= j < px.Length1 reads px => px[i, j]))
  }

  /** The rows that calls on a blank canvas paint. */
  function Painted(w: nat, h: nat, calls: seq<Call>): (rows: Rows)
    ensures |rows| == h && forall i | 0 <= i < h :: |rows[i]| == w
    ensures forall i, j | 0 <= i < h && 0 <= j < w :: rows[i][j] == PixelAt(calls, j, i)
  {
    seq(h, i requires 0 <= i < h => seq(w, j requires 0 <= j < w => PixelAt(calls, j, i)))
  }

  lemma SameRows(a: Rows, b: Rows, w: nat)
    requires |a| == |b| && forall i | 0 <= i < |a| :: |a[i]| == |b[i]| == w
    requires forall i, j | 0 <= i < |a| && 0 <= j < w :: a[i][j] == b[i][j]
    ensures a == b
  {
    forall i | 0 <= i < |a| ensures a[i] == b[i] {
      assert forall j | 0 <= j < w :: a[i][j] == b[i][j];
    }
  }

  /** A whole sprite, from the calls that draw it to the file: a decoder finds an image of
      the canvas's size whose every pixel is what the last call over it painted. */
  method DrawToFile(z: Zlib, w: nat, h: nat, calls: seq<Call>) returns (png: Option<bytes>)
    requires z.Valid()
    ensures png.Some? <==> w < LIMIT && h < LIMIT && |z.compress(Raw(Painted(w, h, calls)))| < LIMIT
    ensures png.Some? ==> Decode(z, png.value) == Some(Image(w, h, Painted(w, h, calls)))
  {
    var px := Draw(w, h, calls);
    var rows := Canvas(px);
    assert forall i, j | 0 <= i < h && 0 <= j < w :: rows[i][j] == px[i, j];
    hide Painted, PixelAt, Raw, Encoded, Decode;
    SameRows(rows, Painted(w, h, calls), w);
    png := WritePng(z, w, h, rows);
    if png.Some? {
      DecodeEncoded(z, w, rows);
    }
  }
}
