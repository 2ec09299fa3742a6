/** The dither-stride detector of FramebufferFilter.c: one left-to-right scan
    of a row of palette indices that flags every pixel lying in an alternating
    A-B-A-B run long enough to be a dithering pattern.

    The scan is proved equal to a definition that does not mention its state:
    a pixel x is a dither centre when its two neighbours share an index that
    differs from its own; two centres at most two pixels apart form a link;
    and a pixel is flagged exactly when it lies within one pixel of both ends
    of some link. */
module DitherDetector {
  import opened Colors

  /** Strides no longer than this (end - start) are discarded as noise. */
  const THRESH: int := 2
  /** Extra bytes written past ditherLength by the commit. */
  const BLEED: int := 1

  /** x is the centre of an A-B-A triple (A != B). */
  predicate IsCentre(row: seq<byte>, x: int)
  {
    1 <= x < |row| - 1 && row[x - 1] == row[x + 1] && row[x] != row[x + 1]
  }

  /** Centres i and j belong to one dither stride and are consecutive in it. */
  predicate IsLink(row: seq<byte>, i: int, j: int)
  {
    IsCentre(row, i) && IsCentre(row, j) && i < j <= i + 2
  }

  /** Pixel p lies inside a dither stride of the row. */
  ghost predicate InStride(row: seq<byte>, p: int)
  {
    exists i, j :: IsLink(row, i, j) && i - 1 <= p <= j + 1
  }

  /** Pixel p is covered by a link whose right centre lies left of hi. */
  ghost predicate CoveredBelow(row: seq<byte>, p: int, hi: int)
  {
    exists i, j :: IsLink(row, i, j) && j < hi && i - 1 <= p <= j + 1
  }

  /** The links already committed to the flags at the top of iteration x: all
      of them when no stride is open, those left of the open stride otherwise. */
  function Committed(x: int, ditherStart: int, ditherEnd: int): int
  {
    if ditherEnd >= 0 then ditherStart + 1 else x
  }

  /** What the scan knows at the top of iteration x. An open stride
      (ditherEnd >= 0) runs from one pixel left of its first centre
      ditherStart + 1 to one pixel right of its last centre ditherEnd - 1, no
      centre precedes its first one by one or two pixels, and none lies between
      its last one and x. With no open stride, pixel x-1 is no centre, and a
      centre at x-2 is followed by a solid pair. */
  ghost predicate ScanState(row: seq<byte>, x: int, ditherStart: int, ditherEnd: int)
  {
    0 <= x <= |row| - 1 && 0 <= ditherStart &&
    (ditherEnd >= 0 ==>
      ditherStart + 2 <= ditherEnd && (ditherEnd == x || ditherEnd == x - 1) &&
      IsCentre(row, ditherStart + 1) && IsCentre(row, ditherEnd - 1) &&
      !IsCentre(row, ditherStart) && !IsCentre(row, ditherStart - 1) &&
      (ditherEnd == x - 1 ==> !IsCentre(row, x - 1)) &&
      (ditherEnd - ditherStart > THRESH ==>
        forall p :: ditherStart <= p <= ditherEnd ==> CoveredBelow(row, p, x))) &&
    (ditherEnd < 0 ==>
      !IsCentre(row, x - 1) && (IsCentre(row, x - 2) ==> row[x - 1] == row[x]))
  }

  lemma CoveredMono(row: seq<byte>, p: int, lo: int, hi: int)
    requires lo <= hi && CoveredBelow(row, p, lo)
    ensures CoveredBelow(row, p, hi)
  {
    var i, j :| IsLink(row, i, j) && j < lo && i - 1 <= p <= j + 1;
    assert IsLink(row, i, j) && j < hi;
  }

  /** A commit at a non-centre x flags exactly the pixels covered by the links
      of the stride it closes. */
  lemma {:induction false} CommitCovers(row: seq<byte>, x: int, ditherStart: int, ditherEnd: int, p: int)
    requires ScanState(row, x, ditherStart, ditherEnd) && !IsCentre(row, x)
    ensures CoveredBelow(row, p, x + 1) <==>
            CoveredBelow(row, p, Committed(x, ditherStart, ditherEnd)) ||
            (ditherEnd - ditherStart > THRESH && ditherStart <= p <= ditherEnd)
  {
    var lo := Committed(x, ditherStart, ditherEnd);
    if CoveredBelow(row, p, x + 1) {
      var i, j :| IsLink(row, i, j) && j < x + 1 && i - 1 <= p <= j + 1;
      if j < lo {
        assert CoveredBelow(row, p, lo);
      } else {
        assert ditherEnd >= 0;
        assert j <= ditherEnd - 1;
        assert i >= ditherStart + 1;
      }
    }
    if ditherEnd - ditherStart > THRESH && ditherStart <= p <= ditherEnd {
      CoveredMono(row, p, x, x + 1);
    }
    if CoveredBelow(row, p, lo) {
      CoveredMono(row, p, lo, x + 1);
    }
  }

  /** Extending an open stride to the centre x leaves every pixel of the
      extended stride covered. */
  lemma ExtendCovers(row: seq<byte>, x: int, ditherStart: int, ditherEnd: int, p: int)
    requires ScanState(row, x, ditherStart, ditherEnd) && ditherEnd >= 0 && IsCentre(row, x)
    requires ditherStart <= p <= x + 1
    ensures CoveredBelow(row, p, x + 1)
  {
    var last := ditherEnd - 1;
    assert IsLink(row, last, x);
    if p < last - 1 {
      assert CoveredBelow(row, p, x);
      CoveredMono(row, p, x, x + 1);
    }
  }

  /** Every flagged pixel lies inside the row, so every write of the detector
      lands in [0, w). */
  lemma InStrideBounds(row: seq<byte>, p: int)
    requires InStride(row, p)
    ensures 0 <= p < |row|
  {
  }

  /** A row of one solid colour has no dither centre, so nothing is flagged. */
  lemma SolidRowNotFlagged(row: seq<byte>, p: int)
    requires forall k :: 0 <= k < |row| ==> row[k] == row[0]
    ensures !InStride(row, p)
  {
  }

  /** A row that alternates two indices A, B, A, B, ... over at least four
      pixels is flagged at every position. */
  lemma {:induction false} AlternatingRowFlagged(row: seq<byte>, a: byte, b: byte, p: int)
    requires |row| >= 4 && a != b
    requires forall k :: 0 <= k < |row| ==> row[k] == if k % 2 == 0 then a else b
    requires 0 <= p < |row|
    ensures InStride(row, p)
  {
    var i := if p <= 2 then 1 else if p - 1 <= |row| - 3 then p - 1 else |row| - 3;
    assert row[i - 1] == row[i + 1] && row[i] != row[i + 1];
    assert row[i] == row[i + 2] && row[i + 1] != row[i + 2];
    assert IsLink(row, i, i + 1);
  }

  /** An alternating triple A, B, A alone is too short to be a dither stride. */
  lemma ShortAlternationNotFlagged(a: byte, b: byte, p: int)
    ensures !InStride([a, b, a], p)
  {
  }

  /** A hard edge between two flat runs, A..A B..B, is never smeared. */
  lemma EdgeNotFlagged(row: seq<byte>, edge: int, p: int)
    requires 0 <= edge <= |row|
    requires forall k :: 0 <= k < edge ==> row[k] == row[0]
    requires forall k :: edge <= k < |row| ==> row[k] == row[|row| - 1]
    ensures !InStride(row, p)
  {
  }

  /** The row [10, 20, 10, 20] is flagged at 0, 1, 2 and 3; the row
      [10, 10, 20, 20] is flagged nowhere. */
  lemma WorkedRows(p: int)
    ensures InStride([10, 20, 10, 20], p) <==> 0 <= p <= 3
    ensures !InStride([10, 10, 20, 20], p)
  {
    if 0 <= p <= 3 {
      assert IsLink([10, 20, 10, 20], 1, 2);
    }
  }

  /** A centre two pixels after another, separated by a third index
      (A, B, A, C, A), continues the stride: all five pixels are flagged. */
  lemma SkippedPixelContinuesStride(a: byte, b: byte, c: byte, p: int)
    requires a != b && a != c
    requires 0 <= p < 5
    ensures InStride([a, b, a, c, a], p)
  {
    assert IsLink([a, b, a, c, a], 1, 3);
  }

  /** COMMIT_STRIDE: when the stride is longer than THRESH, set the flags of
      pixels ditherStart..ditherEnd (ditherLength + BLEED bytes) of flag row t;
      otherwise write nothing. */
  method CommitStride(flags: array2<byte>, t: nat, ditherStart: int, ditherEnd: int)
    requires t < flags.Length0
    requires ditherEnd - ditherStart > THRESH ==> 0 <= ditherStart && ditherEnd < flags.Length1
    modifies flags
    ensures forall u, x :: 0 <= u < flags.Length0 && 0 <= x < flags.Length1 ==>
      flags[u, x] == if u == t && ditherEnd - ditherStart > THRESH && ditherStart <= x <= ditherEnd
                     then 1 else old(flags[u, x])
  {
    var ditherLength := ditherEnd - ditherStart;
    if ditherLength > THRESH {
      // memset(rowSmearFlags + ditherStart, 1, ditherLength + BLEED)
      forall x | ditherStart <= x < ditherStart + ditherLength + BLEED {
        flags[t, x] := 1;
      }
    }
  }

  /** FilterDithering_Row: scan row y of indexed and set to 1 the flag, in flag
      row t, of every pixel inside a dither stride. No flag is ever cleared and
      nothing else is written. */
  method FilterDitheringRow(indexed: array2<byte>, y: nat, flags: array2<byte>, t: nat)
    requires y < indexed.Length0 && t < flags.Length0
    requires 2 <= indexed.Length1 == flags.Length1
    requires flags != indexed
    modifies flags
    ensures forall u, x :: 0 <= u < flags.Length0 && 0 <= x < flags.Length1 ==>
      flags[u, x] == if u == t && InStride(Row(indexed, y), x) then 1 else old(flags[u, x])
  {
    var w := indexed.Length1;
    ghost var row := Row(indexed, y);
    var prev: int := -1;
    var me: int := indexed[y, 0];
    var next: int := indexed[y, 1];
    var ditherStart := 0;
    var ditherEnd := -1;

    for x := 0 to w - 1
      invariant prev == (if x == 0 then -1 else row[x - 1]) && me == row[x]
      invariant ScanState(row, x, ditherStart, ditherEnd)
      invariant forall u, k :: 0 <= u < flags.Length0 && 0 <= k < w ==>
        flags[u, k] == if u == t && CoveredBelow(row, k, Committed(x, ditherStart, ditherEnd)) then 1 else old(flags[u, k])
    {
      next := indexed[y, x + 1];
      assert next == row[x + 1];
      ghost var x1 := x + 1;
      if me == next || me == prev {
        // contiguous solid colour: commit the current stride, if any
        CommitStride(flags, t, ditherStart, ditherEnd);
        forall k | 0 <= k < w
          ensures CoveredBelow(row, k, x1) <==> CoveredBelow(row, k, Committed(x, ditherStart, ditherEnd)) ||
                                                (ditherEnd - ditherStart > THRESH && ditherStart <= k <= ditherEnd)
        {
          CommitCovers(row, x, ditherStart, ditherEnd, k);
        }
        ditherEnd := -1;
      } else if prev == next {
        // middle of a dithered stride
        assert IsCentre(row, x);
        if ditherEnd < 0 {
          ditherStart := x - 1;
        } else {
          forall p | ditherStart <= p <= x1 ensures CoveredBelow(row, p, x1) {
            ExtendCovers(row, x, ditherStart, ditherEnd, p);
          }
        }
        ditherEnd := x + 1;
      } else if x == ditherEnd {
        // pixel already used to dither the previous column
        forall p | ditherStart <= p <= ditherEnd && ditherEnd - ditherStart > THRESH
          ensures CoveredBelow(row, p, x1)
        {
          CoveredMono(row, p, x, x1);
        }
      } else {
        // lone non-dithered pixel
        CommitStride(flags, t, ditherStart, ditherEnd);
        forall k | 0 <= k < w
          ensures CoveredBelow(row, k, x1) <==> CoveredBelow(row, k, Committed(x, ditherStart, ditherEnd)) ||
                                                (ditherEnd - ditherStart > THRESH && ditherStart <= k <= ditherEnd)
        {
          CommitCovers(row, x, ditherStart, ditherEnd, k);
        }
        ditherEnd := -1;
      }
      prev := me;
      me := next;
    }

    // commit the stride still open at the end of the row
    CommitStride(flags, t, ditherStart, ditherEnd);
    forall k | 0 <= k < w
      ensures InStride(row, k) <==>
              CoveredBelow(row, k, Committed(w - 1, ditherStart, ditherEnd)) ||
              (ditherEnd - ditherStart > THRESH && ditherStart <= k <= ditherEnd)
    {
      CommitCovers(row, w - 1, ditherStart, ditherEnd, k);
      if InStride(row, k) {
        var i, j :| IsLink(row, i, j) && i - 1 <= k <= j + 1;
        assert CoveredBelow(row, k, w);
      }
    }
  }
}
