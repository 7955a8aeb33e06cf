/** `SDL_Color` and the packed 32-bit pixel value computed from it once, at
    construction, in the byte order of the host. */
module Colors {
  import opened Arith

  datatype Color = Color(r: byte, g: byte, b: byte, a: byte)

  /** Little-endian hosts: `(255 << 24) + (r << 16) + (g << 8) + b`. The
      shift `255 << 24` overflows `int` and wraps to -2^24; the sum then
      becomes a `Uint32`. Alpha is always 255, whatever `c.a` is. */
  function PackLittleEndian(c: Color): (p: uint32)
    ensures p == 0xFF00_0000 + c.r * 0x1_0000 + c.g * 0x100 + c.b
  {
    ToUint32(WrapInt32(255 * 0x100_0000) as int + c.r * 0x1_0000 + c.g * 0x100 + c.b)
  }

  /** Big-endian hosts: `(b << 24) + (g << 16) + (r << 8) + 255`; `b << 24`
      wraps when `b >= 128`. */
  function PackBigEndian(c: Color): (p: uint32)
    ensures p == c.b * 0x100_0000 + c.g * 0x1_0000 + c.r * 0x100 + 0xFF
  {
    ToUint32(WrapInt32(c.b * 0x100_0000) as int + c.g * 0x1_0000 + c.r * 0x100 + 255)
  }

  /** The packing selected by `SDL_BYTEORDER`. A packed colour is never 0,
      the value of a transparent pixel. */
  function PackColor(c: Color, bigEndian: bool): (p: uint32)
    ensures p != 0
  {
    if bigEndian then PackBigEndian(c) else PackLittleEndian(c)
  }

  /** Byte `k` (0 = least significant) of a packed pixel: `(p >> 8k) & 0xFF`. */
  function ByteOf(p: uint32, k: nat): (v: byte)
    requires k < 4
  {
    (p / Pow256(k)) % 0x100
  }

  function Pow256(k: nat): (r: nat)
    requires k < 4
    ensures r > 0
  {
    if k == 0 then 1 else if k == 1 then 0x100 else if k == 2 then 0x1_0000 else 0x100_0000
  }

  lemma SplitBytes(b3: byte, b2: byte, b1: byte, b0: byte)
    ensures var p := b3 * 0x100_0000 + b2 * 0x1_0000 + b1 * 0x100 + b0;
      p / 0x100 == b3 * 0x1_0000 + b2 * 0x100 + b1 &&
      p / 0x1_0000 == b3 * 0x100 + b2 &&
      p / 0x100_0000 == b3
  {
    var p := b3 * 0x100_0000 + b2 * 0x1_0000 + b1 * 0x100 + b0;
    var q1 := b3 * 0x1_0000 + b2 * 0x100 + b1;
    assert p == q1 * 0x100 + b0;
    var q2 := b3 * 0x100 + b2;
    assert p == q2 * 0x1_0000 + (b1 * 0x100 + b0);
    assert p == b3 * 0x100_0000 + (b2 * 0x1_0000 + b1 * 0x100 + b0);
  }

  /** In ARGB8888 on a little-endian host the channels are recovered by
      shift-and-mask: alpha in the top byte (always 0xFF), then red, green
      and blue. */
  lemma LittleEndianChannels(c: Color)
    ensures ByteOf(PackLittleEndian(c), 3) == 0xFF
    ensures ByteOf(PackLittleEndian(c), 2) == c.r
    ensures ByteOf(PackLittleEndian(c), 1) == c.g
    ensures ByteOf(PackLittleEndian(c), 0) == c.b
  {
    SplitBytes(0xFF, c.r, c.g, c.b);
  }

  /** On a big-endian host the bytes from most to least significant are
      blue, green, red and 0xFF. */
  lemma BigEndianChannels(c: Color)
    ensures ByteOf(PackBigEndian(c), 3) == c.b
    ensures ByteOf(PackBigEndian(c), 2) == c.g
    ensures ByteOf(PackBigEndian(c), 1) == c.r
    ensures ByteOf(PackBigEndian(c), 0) == 0xFF
  {
    SplitBytes(c.b, c.g, c.r, 0xFF);
  }

  /** Packing keeps red, green and blue apart and forgets alpha: two colours
      pack alike exactly when their red, green and blue agree. */
  lemma PackColorInjective(c: Color, d: Color, bigEndian: bool)
    ensures PackColor(c, bigEndian) == PackColor(d, bigEndian) <==>
      c.r == d.r && c.g == d.g && c.b == d.b
  {
    if bigEndian {
      BigEndianChannels(c);
      BigEndianChannels(d);
    } else {
      LittleEndianChannels(c);
      LittleEndianChannels(d);
    }
  }
}
