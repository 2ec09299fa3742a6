/** Pixel and palette-entry representations shared by the framebuffer filter
    and the palette manager: bytes, 16- and 32-bit words, the little-endian
    byte view of a 32-bit palette entry, channel mixing and 5-6-5 packing. */
module Colors {

  type byte = x: int | 0 <= x < 0x100
  type u16 = x: int | 0 <= x < 0x1_0000
  type u32 = x: int | 0 <= x < 0x1_0000_0000

  /** FRAMEBUFFER_COLOR_DEPTH: the width of one output pixel (color_t). */
  datatype Depth = Depth16 | Depth32

  /** Byte offsets of red, green and blue inside a 32-bit palette entry or
      output pixel, for the little-endian layout. */
  const RI: nat := 3
  const GI: nat := 2
  const BI: nat := 1

  /** 256^k: the weight of the byte at memory offset k of a little-endian word. */
  function Weight(k: nat): (p: nat)
    requires k < 4
    ensures p > 0
  {
    if k == 0 then 1 else if k == 1 then 0x100 else if k == 2 then 0x1_0000 else 0x100_0000
  }

  /** The byte at memory offset k of the 32-bit word v (what `((uint8_t*)&v)[k]` reads). */
  function ByteAt(v: u32, k: nat): byte
    requires k < 4
  {
    (v / Weight(k)) % 0x100
  }

  /** The 32-bit word whose bytes at memory offsets 0, 1, 2, 3 are b0, b1, b2, b3. */
  function Word(b0: byte, b1: byte, b2: byte, b3: byte): u32
  {
    b0 + 0x100 * b1 + 0x1_0000 * b2 + 0x100_0000 * b3
  }

  /** Reading the bytes of an assembled word gives back its bytes. */
  lemma ByteOfWord(b0: byte, b1: byte, b2: byte, b3: byte)
    ensures ByteAt(Word(b0, b1, b2, b3), 0) == b0
    ensures ByteAt(Word(b0, b1, b2, b3), 1) == b1
    ensures ByteAt(Word(b0, b1, b2, b3), 2) == b2
    ensures ByteAt(Word(b0, b1, b2, b3), 3) == b3
  {
    var v := Word(b0, b1, b2, b3);
    assert v == b0 + 0x100 * (b1 + 0x100 * (b2 + 0x100 * b3));
    assert v / 0x100 == b1 + 0x100 * (b2 + 0x100 * b3);
    assert v / 0x1_0000 == b2 + 0x100 * b3;
    assert v / 0x100_0000 == b3;
  }

  /** v after a one-byte store of b at memory offset k. */
  function WithByte(v: u32, k: nat, b: byte): (r: u32)
    requires k < 4
    ensures ByteAt(r, k) == b
    ensures forall m :: 0 <= m < 4 && m != k ==> ByteAt(r, m) == ByteAt(v, m)
  {
    var b0 := if k == 0 then b else ByteAt(v, 0);
    var b1 := if k == 1 then b else ByteAt(v, 1);
    var b2 := if k == 2 then b else ByteAt(v, 2);
    var b3 := if k == 3 then b else ByteAt(v, 3);
    ByteOfWord(b0, b1, b2, b3);
    Word(b0, b1, b2, b3)
  }

  /** The blended value of one channel: `(left + right) >> 1` on the
      int-promoted channel bytes, that is the floor of their mean. */
  function Mix(left: byte, right: byte): (m: byte)
    ensures left <= right ==> left <= m <= right
    ensures right <= left ==> right <= m <= left
    ensures 2 * m == left + right || 2 * m + 1 == left + right
  {
    (left + right) / 2
  }

  /** `(b >> 3) | ((g >> 2) << 5) | ((r >> 3) << 11)`: the three fields occupy
      the disjoint bit ranges 0-4, 5-10 and 11-15, so the OR is their sum.
      The ensures clauses read each field back out of the packed pixel. */
  function Pack565(r: byte, g: byte, b: byte): (p: u16)
    ensures p % 32 == b / 8
    ensures (p / 32) % 64 == g / 4
    ensures p / 2048 == r / 8
  {
    b / 8 + (g / 4) * 32 + (r / 8) * 2048
  }

  /** Row y of a two-dimensional framebuffer, as a sequence of its pixels. The
      framebuffers are row-major buffers of rows of a.Length1 pixels; pixel
      (y, x) is the one at offset y * a.Length1 + x of the flat buffer. */
  ghost function Row<T>(a: array2<T>, y: nat): (row: seq<T>)
    requires y < a.Length0
    reads a
    ensures |row| == a.Length1 && forall x :: 0 <= x < a.Length1 ==> row[x] == a[y, x]
  {
    seq(a.Length1, x requires 0 <= x < a.Length1 reads a => a[y, x])
  }
}
