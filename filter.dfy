/** The indexed-to-colour conversion of FramebufferFilter.c: the direct palette
    lookup, the dither-smoothing conversion that blends every flagged pixel with
    its right neighbour, and the 2x nearest-neighbour pixel doubler.

    The framebuffers are two-dimensional arrays of rows of VISIBLE_WIDTH pixels
    (the source's flat row-major buffers, pixel (y, x) at offset
    y * VISIBLE_WIDTH + x); a call converts rows firstRow .. firstRow+numRows-1. */
module FramebufferFilter {
  import opened Colors
  import opened DitherDetector

  /** The palette as the filter reads it: finalColors32, 256 packed 32-bit
      entries that are also read byte by byte when blending, and finalColors16,
      the 256 color_t values looked up directly at 16-bit depth. */
  datatype FinalColors = FinalColors(colors32: seq<u32>, colors16: seq<u16>)

  type PaletteTables = t: FinalColors | |t.colors32| == 256 && |t.colors16| == 256
    witness FinalColors(seq(256, i => 0), seq(256, i => 0))

  /** finalColorsXX[i]: the direct lookup of palette index i at the configured depth. */
  function DirectColor(pal: PaletteTables, depth: Depth, i: byte): (c: u32)
    ensures depth == Depth16 ==> c < 0x1_0000
  {
    if depth == Depth16 then pal.colors16[i] else pal.colors32[i]
  }

  /** The colour written for a flagged pixel whose index is left and whose right
      neighbour's index is right; under is what the output buffer held there,
      of which a 32-bit store keeps the byte that is not a colour channel. */
  function BlendedPixel(pal: PaletteTables, depth: Depth, left: byte, right: byte, under: u32): u32
  {
    var l := pal.colors32[left];
    var r := pal.colors32[right];
    var rmix := Mix(ByteAt(l, RI), ByteAt(r, RI));
    var gmix := Mix(ByteAt(l, GI), ByteAt(r, GI));
    var bmix := Mix(ByteAt(l, BI), ByteAt(r, BI));
    if depth == Depth16 then Pack565(rmix, gmix, bmix)
    else WithByte(WithByte(WithByte(under, RI, rmix), GI, gmix), BI, bmix)
  }

  /** At 32-bit depth each colour channel of a blended pixel is the floor of
      the mean of that channel in the two palette entries, and the fourth byte
      is left as it was. */
  lemma BlendChannels32(pal: PaletteTables, left: byte, right: byte, under: u32)
    ensures var p := BlendedPixel(pal, Depth32, left, right, under);
      var l := pal.colors32[left];
      var r := pal.colors32[right];
      ByteAt(p, RI) == (ByteAt(l, RI) + ByteAt(r, RI)) / 2 &&
      ByteAt(p, GI) == (ByteAt(l, GI) + ByteAt(r, GI)) / 2 &&
      ByteAt(p, BI) == (ByteAt(l, BI) + ByteAt(r, BI)) / 2 &&
      ByteAt(p, 0) == ByteAt(under, 0)
  {
  }

  /** At 16-bit depth the blended pixel holds the top 5, 6 and 5 bits of the
      mean red, green and blue channels. */
  lemma BlendChannels16(pal: PaletteTables, left: byte, right: byte, under: u32)
    ensures var p := BlendedPixel(pal, Depth16, left, right, under);
      var l := pal.colors32[left];
      var r := pal.colors32[right];
      p < 0x1_0000 &&
      p / 2048 == (ByteAt(l, RI) + ByteAt(r, RI)) / 2 / 8 &&
      (p / 32) % 64 == (ByteAt(l, GI) + ByteAt(r, GI)) / 2 / 4 &&
      p % 32 == (ByteAt(l, BI) + ByteAt(r, BI)) / 2 / 8
  {
  }

  /** Blending does not depend on which of the two pixels is on the left. */
  lemma BlendSymmetric(pal: PaletteTables, depth: Depth, a: byte, b: byte, under: u32)
    ensures BlendedPixel(pal, depth, a, b, under) == BlendedPixel(pal, depth, b, a, under)
  {
  }

  /** Pure red (255, 0, 0) next to pure blue (0, 0, 255) blends to (127, 0, 127). */
  lemma BlendRedBlue(pal: PaletteTables, left: byte, right: byte, under: u32)
    requires ByteAt(pal.colors32[left], RI) == 255 && ByteAt(pal.colors32[left], GI) == 0
    requires ByteAt(pal.colors32[left], BI) == 0
    requires ByteAt(pal.colors32[right], RI) == 0 && ByteAt(pal.colors32[right], GI) == 0
    requires ByteAt(pal.colors32[right], BI) == 255
    ensures var p := BlendedPixel(pal, Depth32, left, right, under);
      ByteAt(p, RI) == 127 && ByteAt(p, GI) == 0 && ByteAt(p, BI) == 127
  {
    BlendChannels32(pal, left, right, under);
  }

  /** The colour the filtered conversion writes at pixel x of row: the blend
      with the right neighbour when the pixel is flagged, either by the scan of
      this row or by a flag left set in the scratch buffer (stale), and the
      direct lookup otherwise; the last pixel of a row is never blended. */
  ghost function FilteredPixel(pal: PaletteTables, depth: Depth, row: seq<byte>, x: nat, stale: bool, under: u32): u32
    requires x < |row|
  {
    if x < |row| - 1 && (stale || InStride(row, x)) then BlendedPixel(pal, depth, row[x], row[x + 1], under)
    else DirectColor(pal, depth, row[x])
  }

  /** On a pixel that no scan flags and no stale flag marks, the filtered
      conversion agrees with the plain one. */
  lemma UnflaggedIsDirect(pal: PaletteTables, depth: Depth, row: seq<byte>, x: nat, under: u32)
    requires x < |row| && !InStride(row, x)
    ensures FilteredPixel(pal, depth, row, x, false, under) == DirectColor(pal, depth, row[x])
  {
  }

  /** A row of one solid colour converts to the plain lookup everywhere,
      whatever the flags left over from before say about its last pixel. */
  lemma SolidRowIsDirect(pal: PaletteTables, depth: Depth, row: seq<byte>, x: nat, under: u32)
    requires x < |row| && forall i :: 0 <= i < |row| ==> row[i] == row[0]
    ensures FilteredPixel(pal, depth, row, x, false, under) == DirectColor(pal, depth, row[x])
  {
    SolidRowNotFlagged(row, x);
  }

  /** IndexedFramebufferToColor_NoFilter: every pixel of the rows is replaced
      by the direct palette lookup of its index; nothing else changes. */
  method IndexedFramebufferToColorNoFilter(color: array2<u32>, indexed: array2<byte>, pal: PaletteTables, depth: Depth,
                                           firstRow: nat, numRows: nat)
    requires firstRow + numRows <= indexed.Length0 && firstRow + numRows <= color.Length0
    requires indexed.Length1 == color.Length1
    modifies color
    ensures forall y, x :: 0 <= y < color.Length0 && 0 <= x < color.Length1 ==>
      color[y, x] == if firstRow <= y < firstRow + numRows then DirectColor(pal, depth, indexed[y, x]) else old(color[y, x])
  {
    for y := firstRow to firstRow + numRows
      invariant forall u, x :: 0 <= u < color.Length0 && 0 <= x < color.Length1 ==>
        color[u, x] == if firstRow <= u < y then DirectColor(pal, depth, indexed[u, x]) else old(color[u, x])
    {
      for x := 0 to color.Length1
        invariant forall u, v :: 0 <= u < color.Length0 && 0 <= v < color.Length1 ==>
          color[u, v] == if firstRow <= u < y || (u == y && v < x) then DirectColor(pal, depth, indexed[u, v])
                         else old(color[u, v])
      {
        color[y, x] := DirectColor(pal, depth, indexed[y, x]);
      }
    }
  }

  /** The stores of a flagged pixel: the mean of each channel of the two
      palette entries, written either as three single-byte stores into the
      32-bit pixel or as one packed 5-6-5 store. */
  method StoreBlend(color: array2<u32>, y: nat, x: nat, pal: PaletteTables, depth: Depth, leftIndex: byte, rightIndex: byte)
    requires y < color.Length0 && x < color.Length1
    modifies color
    ensures forall u, v :: 0 <= u < color.Length0 && 0 <= v < color.Length1 ==>
      color[u, v] == if u == y && v == x then BlendedPixel(pal, depth, leftIndex, rightIndex, old(color[y, x]))
                     else old(color[u, v])
  {
    var left := pal.colors32[leftIndex];
    var right := pal.colors32[rightIndex];
    var rmix := Mix(ByteAt(left, RI), ByteAt(right, RI));
    var gmix := Mix(ByteAt(left, GI), ByteAt(right, GI));
    var bmix := Mix(ByteAt(left, BI), ByteAt(right, BI));
    if depth == Depth16 {
      color[y, x] := Pack565(rmix, gmix, bmix);
    } else {
      color[y, x] := WithByte(color[y, x], RI, rmix);
      color[y, x] := WithByte(color[y, x], GI, gmix);
      color[y, x] := WithByte(color[y, x], BI, bmix);
    }
  }

  /** One row of IndexedFramebufferToColor_FilterDithering (the body of its row
      loop): scan row y into flag row t, then convert pixels 0 .. w-2, blending
      and clearing each flagged one, and look the last pixel up directly. A
      pixel counts as flagged when the scan flagged it or its flag was already
      set; the last flag is never read or cleared. */
  method ConvertRowFilterDithering(color: array2<u32>, indexed: array2<byte>, flags: array2<byte>, pal: PaletteTables,
                                   depth: Depth, y: nat, t: nat)
    requires y < indexed.Length0 && y < color.Length0 && t < flags.Length0
    requires 2 <= indexed.Length1 == color.Length1 == flags.Length1
    requires flags != indexed
    modifies color, flags
    ensures forall u, x :: 0 <= u < color.Length0 && 0 <= x < color.Length1 ==>
      color[u, x] == if u == y then FilteredPixel(pal, depth, Row(indexed, y), x, old(flags[t, x]) != 0, old(color[u, x]))
                     else old(color[u, x])
    ensures forall u, x :: 0 <= u < flags.Length0 && 0 <= x < flags.Length1 ==>
      flags[u, x] == if u != t then old(flags[u, x])
                     else if x < flags.Length1 - 1 then 0
                     else if InStride(Row(indexed, y), x) then 1 else old(flags[u, x])
  {
    var w := color.Length1;
    ghost var row := Row(indexed, y);
    ghost var flags0 := flags;
    ghost var stale := Row(flags, t);
    FilterDitheringRow(indexed, y, flags, t);
    ghost var detected := Row(flags, t);

    for x := 0 to w - 1
      invariant forall u, v :: 0 <= u < color.Length0 && 0 <= v < w ==>
        color[u, v] == if u == y && v < x then FilteredPixel(pal, depth, row, v, stale[v] != 0, old(color[u, v]))
                       else old(color[u, v])
      invariant forall u, v :: 0 <= u < flags.Length0 && 0 <= v < w ==>
        flags[u, v] == if u == t && v < x then 0
                       else if u == t then detected[v]
                       else old(flags[u, v])
    {
      ghost var under := color[y, x];
      if flags[t, x] != 0 {
        assert stale[x] != 0 || InStride(row, x);
        StoreBlend(color, y, x, pal, depth, indexed[y, x], indexed[y, x + 1]);
        flags[t, x] := 0;  // clear for the next row
      } else {
        assert stale[x] == 0 && !InStride(row, x);
        color[y, x] := DirectColor(pal, depth, indexed[y, x]);
      }
      assert color[y, x] == FilteredPixel(pal, depth, row, x, stale[x] != 0, under);
    }

    color[y, w - 1] := DirectColor(pal, depth, indexed[y, w - 1]);  // last pixel
  }

  /** IndexedFramebufferToColor_FilterDithering: convert each row with the
      dither filter, using flag row threadNum. Only the first row can see flags
      left set by an earlier call; afterwards flags 0 .. w-2 of the row are
      clear, and flag w-1, which the conversion never reads or clears, is set
      exactly if some scan flagged it or it was set already. */
  method IndexedFramebufferToColorFilterDithering(color: array2<u32>, indexed: array2<byte>, flags: array2<byte>,
                                                  pal: PaletteTables, depth: Depth,
                                                  threadNum: nat, firstRow: nat, numRows: nat)
    requires firstRow + numRows <= indexed.Length0 && firstRow + numRows <= color.Length0 && threadNum < flags.Length0
    requires 2 <= indexed.Length1 == color.Length1 == flags.Length1
    requires flags != indexed
    modifies color, flags
    ensures forall y, x :: 0 <= y < color.Length0 && 0 <= x < color.Length1 ==>
      color[y, x] == if firstRow <= y < firstRow + numRows
                     then FilteredPixel(pal, depth, Row(indexed, y), x, y == firstRow && old(flags[threadNum, x]) != 0, old(color[y, x]))
                     else old(color[y, x])
    ensures forall u, x :: 0 <= u < flags.Length0 && 0 <= x < flags.Length1 && (u != threadNum || x < flags.Length1 - 1) ==>
      flags[u, x] == if u == threadNum && numRows > 0 then 0 else old(flags[u, x])
    ensures flags[threadNum, flags.Length1 - 1] ==
      if exists y :: firstRow <= y < firstRow + numRows && InStride(Row(indexed, y), flags.Length1 - 1) then 1
      else old(flags[threadNum, flags.Length1 - 1])
  {
    var w := color.Length1;
    for y := firstRow to firstRow + numRows
      invariant forall u, x :: 0 <= u < color.Length0 && 0 <= x < w ==>
        color[u, x] == if firstRow <= u < y
                       then FilteredPixel(pal, depth, Row(indexed, u), x, u == firstRow && old(flags[threadNum, x]) != 0, old(color[u, x]))
                       else old(color[u, x])
      invariant forall u, x :: 0 <= u < flags.Length0 && 0 <= x < w && (u != threadNum || x < w - 1) ==>
        flags[u, x] == if u == threadNum && y > firstRow then 0 else old(flags[u, x])
      invariant flags[threadNum, w - 1] ==
        if exists r :: firstRow <= r < y && InStride(Row(indexed, r), w - 1) then 1
        else old(flags[threadNum, w - 1])
    {
      ConvertRowFilterDithering(color, indexed, flags, pal, depth, y, threadNum);
      assert forall r :: firstRow <= r < y + 1 && InStride(Row(indexed, r), w - 1) ==>
        r == y || (firstRow <= r < y && InStride(Row(indexed, r), w - 1));
    }
  }

  /** One source row written twice horizontally: pixel x lands at 2x and 2x+1. */
  function DoubledRow(row: seq<u32>): (d: seq<u32>)
    ensures |d| == 2 * |row|
  {
    seq(2 * |row|, i requires 0 <= i < 2 * |row| => row[i / 2])
  }

  /** Every other pixel of a row: the inverse of doubling. */
  function Halved(row: seq<u32>): (h: seq<u32>)
    ensures |h| == |row| / 2
    ensures forall i :: 0 <= i < |h| ==> h[i] == row[2 * i]
  {
    seq(|row| / 2, i requires 0 <= i < |row| / 2 => row[2 * i])
  }

  /** Doubling loses nothing: halving a doubled row gives the row back. */
  lemma HalvedDoubled(row: seq<u32>)
    ensures Halved(DoubledRow(row)) == row
  {
    var d := DoubledRow(row);
    forall i | 0 <= i < |row| ensures Halved(d)[i] == row[i] {
      assert d[2 * i] == row[i];
    }
  }

  /** A doubled row is made of pairs of equal pixels, each pair a pixel of the row. */
  lemma DoubledRowPairs(row: seq<u32>, x: nat)
    requires x < |row|
    ensures DoubledRow(row)[2 * x] == row[x] && DoubledRow(row)[2 * x + 1] == row[x]
  {
  }

  /** DoublePixels: rows firstRow .. firstRow+numRows-1 of colorx1 are upscaled
      2x into colorx2, whose rows are twice as long, starting at its row
      2*firstRow: both rows 2y and 2y+1 of colorx2 become the doubled row y of
      colorx1; nothing else in colorx2 changes. */
  method DoublePixels(colorx1: array2<u32>, colorx2: array2<u32>, firstRow: nat, numRows: nat)
    requires colorx1 != colorx2
    requires firstRow + numRows <= colorx1.Length0 && 2 * (firstRow + numRows) <= colorx2.Length0
    requires colorx2.Length1 == 2 * colorx1.Length1
    modifies colorx2
    ensures forall y, x :: 0 <= y < colorx2.Length0 && 0 <= x < colorx2.Length1 ==>
      colorx2[y, x] == if 2 * firstRow <= y < 2 * (firstRow + numRows) then colorx1[y / 2, x / 2] else old(colorx2[y, x])
  {
    var w := colorx1.Length1;
    for y := firstRow to firstRow + numRows
      invariant forall u, v :: 0 <= u < colorx2.Length0 && 0 <= v < colorx2.Length1 ==>
        colorx2[u, v] == if 2 * firstRow <= u < 2 * y then colorx1[u / 2, v / 2] else old(colorx2[u, v])
    {
      for x := 0 to w
        invariant forall u, v :: 0 <= u < colorx2.Length0 && 0 <= v < colorx2.Length1 ==>
          colorx2[u, v] == if 2 * firstRow <= u < 2 * y || (u == 2 * y && v < 2 * x) then colorx1[u / 2, v / 2]
                           else old(colorx2[u, v])
      {
        var pixel := colorx1[y, x];
        colorx2[2 * y, 2 * x] := pixel;
        colorx2[2 * y, 2 * x + 1] := pixel;
      }

      // memcpy of row 2y onto row 2y+1
      forall v | 0 <= v < 2 * w {
        colorx2[2 * y + 1, v] := colorx2[2 * y, v];
      }
    }
  }

  /** After DoublePixels' contract holds for row y, rows 2y and 2y+1 of
      colorx2 are both the doubled row y of colorx1. */
  lemma DoublePixelsRows(colorx1: array2<u32>, colorx2: array2<u32>, y: nat)
    requires y < colorx1.Length0 && 2 * y + 1 < colorx2.Length0 && colorx2.Length1 == 2 * colorx1.Length1
    requires forall u, x :: 2 * y <= u <= 2 * y + 1 && 0 <= x < colorx2.Length1 ==> colorx2[u, x] == colorx1[u / 2, x / 2]
    ensures Row(colorx2, 2 * y) == DoubledRow(Row(colorx1, y)) && Row(colorx2, 2 * y + 1) == DoubledRow(Row(colorx1, y))
  {
  }
}
