/** `getpixel`: the value of one pixel of an SDL surface, read from its
    pixel bytes according to the surface's bytes per pixel and pitch. */
module Pixels {

  /** An 8-bit unsigned byte (`Uint8`). */
  newtype byte = b: int | 0 <= b < 256

  /** A 32-bit unsigned word (`Uint32`), the type of a pixel value. */
  newtype uint32 = w: int | 0 <= w < 0x1_0000_0000

  /** `SDL_BYTEORDER`, the byte order of the platform the code is built for. */
  datatype ByteOrder = LittleEndian | BigEndian

  /** The parts of an `SDL_Surface` that the bootstrap code reads: the pixel
      bytes, the length of a row in bytes, the bytes per pixel of its format,
      and its width and height in pixels. */
  datatype Surface = Surface(pixels: seq<byte>, pitch: int, bytesPerPixel: int, w: int, h: int)

  /** 256 to the power `n`: one more than the largest `n`-byte value. */
  function Pow256(n: nat): (p: nat)
    ensures p > 0
  {
    if n == 0 then 1 else 256 * Pow256(n - 1)
  }

  /** The byte offset of pixel (`x`, `y`) in the pixel buffer. */
  function Offset(s: Surface, x: int, y: int): int
  {
    y * s.pitch + x * s.bytesPerPixel
  }

  /** The bytes `getpixel` dereferences for a pixel size of 1 to 4 lie
      inside the pixel buffer. */
  predicate CanRead(s: Surface, x: int, y: int)
  {
    1 <= s.bytesPerPixel <= 4 ==>
      0 <= Offset(s, x, y) && Offset(s, x, y) + s.bytesPerPixel <= |s.pixels|
  }

  /** The unsigned number that `bytes` spell in the given byte order. */
  function Value(bytes: seq<byte>, order: ByteOrder): nat
  {
    match order
    case LittleEndian => LittleValue(bytes)
    case BigEndian => BigValue(bytes)
  }

  /** Least significant byte first. */
  function LittleValue(bytes: seq<byte>): nat
  {
    if bytes == [] then 0 else bytes[0] as int + 256 * LittleValue(bytes[1..])
  }

  /** Most significant byte first. */
  function BigValue(bytes: seq<byte>): nat
  {
    if bytes == [] then 0 else 256 * BigValue(bytes[..|bytes| - 1]) + bytes[|bytes| - 1] as int
  }

  /** `n` bytes always spell a number below 256^n. */
  lemma {:induction false} ValueBound(bytes: seq<byte>, order: ByteOrder)
    ensures Value(bytes, order) < Pow256(|bytes|)
  {
    if bytes != [] {
      match order
      case LittleEndian => ValueBound(bytes[1..], order);
      case BigEndian => ValueBound(bytes[..|bytes| - 1], order);
    }
  }

  lemma LittleValueCons(b: byte, rest: seq<byte>)
    ensures LittleValue([b] + rest) == b as int + 256 * LittleValue(rest)
  {
  }

  lemma BigValueSnoc(rest: seq<byte>, b: byte)
    ensures BigValue(rest + [b]) == 256 * BigValue(rest) + b as int
  {
  }

  /** The `n` bytes that store `v` in the given byte order. */
  function Encode(v: nat, n: nat, order: ByteOrder): (bytes: seq<byte>)
    requires v < Pow256(n)
    ensures |bytes| == n
    ensures Value(bytes, order) == v
  {
    if n == 0 then []
    else
      var low := (v % 256) as byte;
      assert v / 256 < Pow256(n - 1);
      var rest := Encode(v / 256, n - 1, order);
      match order
      case LittleEndian =>
        LittleValueCons(low, rest);
        [low] + rest
      case BigEndian =>
        BigValueSnoc(rest, low);
        rest + [low]
  }

  /** Reading is the inverse of encoding: the bytes of a value are the only
      bytes that spell it. */
  lemma {:induction false} EncodeValue(bytes: seq<byte>, order: ByteOrder)
    ensures Value(bytes, order) < Pow256(|bytes|)
    ensures Encode(Value(bytes, order), |bytes|, order) == bytes
  {
    ValueBound(bytes, order);
    if bytes != [] {
      var n := |bytes|;
      match order
      case LittleEndian =>
        var rest := bytes[1..];
        EncodeValue(rest, order);
        assert [bytes[0]] + rest == bytes;
        LittleValueCons(bytes[0], rest);
        var v := Value(bytes, order);
        assert v % 256 == bytes[0] as int && v / 256 == LittleValue(rest);
      case BigEndian =>
        var rest := bytes[..n - 1];
        EncodeValue(rest, order);
        assert rest + [bytes[n - 1]] == bytes;
        BigValueSnoc(rest, bytes[n - 1]);
        var v := Value(bytes, order);
        assert v % 256 == bytes[n - 1] as int && v / 256 == BigValue(rest);
    }
  }

  /** The numbers that two, three and four bytes spell, most significant
      byte first, written out. */
  lemma BigValueOf(b0: byte, b1: byte, b2: byte, b3: byte)
    ensures BigValue([b0, b1]) == 256 * b0 as int + b1 as int
    ensures BigValue([b0, b1, b2]) == 65536 * b0 as int + 256 * b1 as int + b2 as int
    ensures BigValue([b0, b1, b2, b3])
      == 16777216 * b0 as int + 65536 * b1 as int + 256 * b2 as int + b3 as int
  {
    assert BigValue([b0]) == b0 as int by { assert [b0][..0] == []; }
    assert BigValue([b0, b1]) == 256 * BigValue([b0]) + b1 as int by { assert [b0, b1][..1] == [b0]; }
    assert BigValue([b0, b1, b2]) == 256 * BigValue([b0, b1]) + b2 as int by {
      assert [b0, b1, b2][..2] == [b0, b1];
    }
    assert BigValue([b0, b1, b2, b3]) == 256 * BigValue([b0, b1, b2]) + b3 as int by {
      assert [b0, b1, b2, b3][..3] == [b0, b1, b2];
    }
  }

  /** The same, least significant byte first. */
  lemma LittleValueOf(b0: byte, b1: byte, b2: byte, b3: byte)
    ensures LittleValue([b0, b1]) == b0 as int + 256 * b1 as int
    ensures LittleValue([b0, b1, b2]) == b0 as int + 256 * b1 as int + 65536 * b2 as int
    ensures LittleValue([b0, b1, b2, b3])
      == b0 as int + 256 * b1 as int + 65536 * b2 as int + 16777216 * b3 as int
  {
    assert LittleValue([b3]) == b3 as int by { assert [b3][1..] == []; }
    assert LittleValue([b2]) == b2 as int by { assert [b2][1..] == []; }
    assert LittleValue([b1]) == b1 as int by { assert [b1][1..] == []; }
    assert LittleValue([b2, b3]) == b2 as int + 256 * LittleValue([b3]) by { assert [b2, b3][1..] == [b3]; }
    assert LittleValue([b1, b2]) == b1 as int + 256 * LittleValue([b2]) by { assert [b1, b2][1..] == [b2]; }
    assert LittleValue([b0, b1]) == b0 as int + 256 * LittleValue([b1]) by { assert [b0, b1][1..] == [b1]; }
    assert LittleValue([b1, b2, b3]) == b1 as int + 256 * LittleValue([b2, b3]) by {
      assert [b1, b2, b3][1..] == [b2, b3];
    }
    assert LittleValue([b0, b1, b2]) == b0 as int + 256 * LittleValue([b1, b2]) by {
      assert [b0, b1, b2][1..] == [b1, b2];
    }
    assert LittleValue([b0, b1, b2, b3]) == b0 as int + 256 * LittleValue([b1, b2, b3]) by {
      assert [b0, b1, b2, b3][1..] == [b1, b2, b3];
    }
  }

  /** The 3-byte read combines the bytes of a pixel with shifts and `|`; the
      2- and 4-byte reads are native loads, whose value is the same kind of
      combination in the platform byte order. The shifted fields never
      overlap, so on 32-bit words each such expression is the sum of the
      bytes scaled by their place value; the reads below are written as
      those sums. */
  lemma ShiftOrIsSum(b0: bv8, b1: bv8, b2: bv8, b3: bv8)
    ensures ((b0 as bv32) | ((b1 as bv32) << 8)) as int == b0 as int + 256 * b1 as int
    ensures (((b0 as bv32) << 8) | (b1 as bv32)) as int == 256 * b0 as int + b1 as int
    ensures ((b0 as bv32) | ((b1 as bv32) << 8) | ((b2 as bv32) << 16)) as int
      == b0 as int + 256 * b1 as int + 65536 * b2 as int
    ensures (((b0 as bv32) << 16) | ((b1 as bv32) << 8) | (b2 as bv32)) as int
      == 65536 * b0 as int + 256 * b1 as int + b2 as int
    ensures ((b0 as bv32) | ((b1 as bv32) << 8) | ((b2 as bv32) << 16) | ((b3 as bv32) << 24)) as int
      == b0 as int + 256 * b1 as int + 65536 * b2 as int + 16777216 * b3 as int
    ensures (((b0 as bv32) << 24) | ((b1 as bv32) << 16) | ((b2 as bv32) << 8) | (b3 as bv32)) as int
      == 16777216 * b0 as int + 65536 * b1 as int + 256 * b2 as int + b3 as int
  {
  }

  /** `*(Uint16 *)p`: a native-endian 16-bit read of the bytes `b0 b1`. */
  function Read16(b0: byte, b1: byte, order: ByteOrder): (r: uint32)
    ensures r as int == Value([b0, b1], order)
  {
    LittleValueOf(b0, b1, 0, 0);
    BigValueOf(b0, b1, 0, 0);
    match order
    case LittleEndian => (b0 as int + 256 * b1 as int) as uint32
    case BigEndian => (256 * b0 as int + b1 as int) as uint32
  }

  /** The explicit three-byte case: `p[0] << 16 | p[1] << 8 | p[2]` on a
      big-endian platform, `p[0] | p[1] << 8 | p[2] << 16` otherwise. */
  function Read24(b0: byte, b1: byte, b2: byte, order: ByteOrder): (r: uint32)
    ensures r as int == Value([b0, b1, b2], order)
  {
    LittleValueOf(b0, b1, b2, 0);
    BigValueOf(b0, b1, b2, 0);
    if order == BigEndian then
      (65536 * b0 as int + 256 * b1 as int + b2 as int) as uint32
    else
      (b0 as int + 256 * b1 as int + 65536 * b2 as int) as uint32
  }

  /** On a big-endian platform `Read24` of the `Uint8` bytes `p[0..3]` is
      `p[0] << 16 | p[1] << 8 | p[2]` on 32-bit words. */
  lemma Read24BigIsShiftOr(c0: bv8, c1: bv8, c2: bv8)
    ensures Read24(c0 as int as byte, c1 as int as byte, c2 as int as byte, BigEndian) as int
      == (((c0 as bv32) << 16) | ((c1 as bv32) << 8) | (c2 as bv32)) as int
  {
    ShiftOrIsSum(c0, c1, c2, 0);
    assert Read24(c0 as int as byte, c1 as int as byte, c2 as int as byte, BigEndian) as int
      == 65536 * c0 as int + 256 * c1 as int + c2 as int;
  }

  /** Elsewhere it is `p[0] | p[1] << 8 | p[2] << 16` on 32-bit words. */
  lemma Read24LittleIsShiftOr(c0: bv8, c1: bv8, c2: bv8)
    ensures Read24(c0 as int as byte, c1 as int as byte, c2 as int as byte, LittleEndian) as int
      == ((c0 as bv32) | ((c1 as bv32) << 8) | ((c2 as bv32) << 16)) as int
  {
    ShiftOrIsSum(c0, c1, c2, 0);
    assert Read24(c0 as int as byte, c1 as int as byte, c2 as int as byte, LittleEndian) as int
      == c0 as int + 256 * c1 as int + 65536 * c2 as int;
  }

  /** `*(Uint32 *)p`: a native-endian 32-bit read of the bytes `b0 b1 b2 b3`. */
  function Read32(b0: byte, b1: byte, b2: byte, b3: byte, order: ByteOrder): (r: uint32)
    ensures r as int == Value([b0, b1, b2, b3], order)
  {
    LittleValueOf(b0, b1, b2, b3);
    BigValueOf(b0, b1, b2, b3);
    match order
    case LittleEndian =>
      (b0 as int + 256 * b1 as int + 65536 * b2 as int + 16777216 * b3 as int) as uint32
    case BigEndian =>
      (16777216 * b0 as int + 65536 * b1 as int + 256 * b2 as int + b3 as int) as uint32
  }

  /** `getpixel(surface, x, y)`: the `bytesPerPixel` bytes at offset
      `y * pitch + x * bytesPerPixel`, read as one number in the platform's
      byte order; 0 for a pixel size outside 1 to 4. */
  function GetPixel(s: Surface, x: int, y: int, order: ByteOrder): (pixel: uint32)
    requires CanRead(s, x, y)
    ensures !(1 <= s.bytesPerPixel <= 4) ==> pixel == 0
    ensures 1 <= s.bytesPerPixel <= 4 ==>
      var p := Offset(s, x, y);
      pixel as int == Value(s.pixels[p..p + s.bytesPerPixel], order)
    ensures 1 <= s.bytesPerPixel <= 3 ==> pixel as int < Pow256(s.bytesPerPixel)
  {
    var bpp := s.bytesPerPixel;
    var p := Offset(s, x, y);
    if 1 <= bpp <= 4 then
      var bytes := s.pixels[p..p + bpp];
      ValueBound(bytes, order);
      if bpp == 1 then
        assert bytes == [bytes[0]];
        assert Value(bytes, order) == bytes[0] as int by {
          assert bytes[1..] == [] && bytes[..0] == [];
        }
        s.pixels[p] as int as uint32
      else if bpp == 2 then
        assert bytes == [bytes[0], bytes[1]];
        Read16(s.pixels[p], s.pixels[p + 1], order)
      else if bpp == 3 then
        assert bytes == [bytes[0], bytes[1], bytes[2]];
        Read24(s.pixels[p], s.pixels[p + 1], s.pixels[p + 2], order)
      else
        assert bytes == [bytes[0], bytes[1], bytes[2], bytes[3]];
        Read32(s.pixels[p], s.pixels[p + 1], s.pixels[p + 2], s.pixels[p + 3], order)
    else 0
  }
}
