/** The row partition of the multithreaded passes: `rows_per_region = height / num_threads`,
    worker `i` gets `[i * rows_per_region, (i + 1) * rows_per_region)` and the last
    worker is extended to `height`. The workers run one after the other here; their
    row ranges are disjoint, so swapping two workers' passes does not change the result
    (Grids.MapRowsDisjointCommute). */
module Partition {
  import opened Pixels
  import opened Grids
  import opened Filters
  import opened RowMajor

  /** `rows_per_region`: the largest share of rows every worker can get. */
  function RowsPerRegion(height: nat, numThreads: nat): (q: nat)
    requires numThreads >= 1
    ensures q * numThreads <= height < (q + 1) * numThreads
  {
    height / numThreads
  }

  /** `start_row` of worker `i`; a worker's region never starts past `height`. */
  function RegionStart(height: nat, numThreads: nat, i: nat): (s: nat)
    requires numThreads >= 1
    ensures i < numThreads ==> s <= height
  {
    var q := RowsPerRegion(height, numThreads);
    if i < numThreads then MulMono(i, numThreads, q); i * q else i * q
  }

  /** `end_row` of worker `i`: the last worker runs to `height`, every other worker's
      region ends within the image and not before it starts. */
  function RegionEnd(height: nat, numThreads: nat, i: nat): (e: nat)
    requires numThreads >= 1
    ensures i == numThreads - 1 ==> e == height
    ensures i < numThreads ==> RegionStart(height, numThreads, i) <= e <= height
  {
    var q := RowsPerRegion(height, numThreads);
    if i == numThreads - 1 then height
    else if i < numThreads then MulMono(i + 1, numThreads, q); (i + 1) * q
    else (i + 1) * q
  }

  predicate InRegion(height: nat, numThreads: nat, i: nat, row: int)
    requires numThreads >= 1
  {
    RegionStart(height, numThreads, i) <= row < RegionEnd(height, numThreads, i)
  }

  /** No region reaches past `height`: `numThreads * rows_per_region <= height`. */
  lemma RegionStartBound(height: nat, numThreads: nat, i: nat)
    requires numThreads >= 1 && i < numThreads
    ensures RegionStart(height, numThreads, i) <= height
    ensures i < numThreads - 1 ==> RegionEnd(height, numThreads, i) <= height
  {
    var q := RowsPerRegion(height, numThreads);
    assert numThreads * q <= height;
    MulMono(i + 1, numThreads, q);
  }

  /** The regions are contiguous: the first starts at row 0, each ends where the next
      begins, the last ends at `height`, and none is negative in length. */
  lemma RegionsContiguous(height: nat, numThreads: nat)
    requires numThreads >= 1
    ensures RegionStart(height, numThreads, 0) == 0
    ensures RegionEnd(height, numThreads, numThreads - 1) == height
    ensures forall i :: 0 <= i < numThreads - 1 ==>
              RegionEnd(height, numThreads, i) == RegionStart(height, numThreads, i + 1)
    ensures forall i :: 0 <= i < numThreads ==>
              RegionStart(height, numThreads, i) <= RegionEnd(height, numThreads, i) <= height
  {
    forall i | 0 <= i < numThreads
      ensures RegionStart(height, numThreads, i) <= RegionEnd(height, numThreads, i) <= height
    {
      RegionStartBound(height, numThreads, i);
    }
  }

  /** The last region holds the `height % numThreads` leftover rows on top of its share. */
  lemma LastRegionTakesRemainder(height: nat, numThreads: nat)
    requires numThreads >= 1
    ensures RegionEnd(height, numThreads, numThreads - 1) - RegionStart(height, numThreads, numThreads - 1)
            == RowsPerRegion(height, numThreads) + height % numThreads
  {
    var q := RowsPerRegion(height, numThreads);
    assert height == numThreads * q + height % numThreads;
    assert (numThreads - 1) * q == numThreads * q - q;
  }

  /** The worker that owns `row`. */
  function Owner(height: nat, numThreads: nat, row: nat): (i: nat)
    requires numThreads >= 1
    ensures i < numThreads
  {
    var q := RowsPerRegion(height, numThreads);
    if q == 0 || row / q >= numThreads - 1 then numThreads - 1 else row / q
  }

  /** If `i * d <= x < (i + 1) * d` then `x / d == i`. */
  lemma DivBetween(x: nat, d: nat, i: nat)
    requires d > 0 && i * d <= x < (i + 1) * d
    ensures x / d == i
  {
    var q := x / d;
    assert q * d <= x < q * d + d;
    if q < i {
      MulMono(q + 1, i, d);
    } else if q > i {
      MulMono(i + 1, q, d);
    }
  }

  /** A region that holds `row` is the region of its owner. */
  lemma InRegionIsOwner(height: nat, numThreads: nat, row: nat, i: nat)
    requires numThreads >= 1 && row < height && i < numThreads
    requires InRegion(height, numThreads, i, row)
    ensures i == Owner(height, numThreads, row)
  {
    var q := RowsPerRegion(height, numThreads);
    if q > 0 {
      if i < numThreads - 1 {
        DivBetween(row, q, i);
      } else if row / q < numThreads - 1 {
        assert row < (row / q + 1) * q;
        MulMono(row / q + 1, numThreads - 1, q);
      }
    }
  }

  /** The owner's region holds the row. */
  lemma OwnerRegionHoldsRow(height: nat, numThreads: nat, row: nat)
    requires numThreads >= 1 && row < height
    ensures InRegion(height, numThreads, Owner(height, numThreads, row), row)
  {
    var q := RowsPerRegion(height, numThreads);
    var o := Owner(height, numThreads, row);
    if q == 0 {
      assert RegionStart(height, numThreads, o) == 0;
    } else {
      DivFloorBounds(row, q);
      if row / q >= numThreads - 1 {
        MulMono(numThreads - 1, row / q, q);
        assert RegionStart(height, numThreads, o) == (numThreads - 1) * q;
      } else {
        assert RegionStart(height, numThreads, o) == (row / q) * q;
        assert RegionEnd(height, numThreads, o) == (row / q + 1) * q;
      }
    }
  }

  /** `x / d` is the `i` with `i * d <= x < (i + 1) * d`. */
  lemma DivFloorBounds(x: nat, d: nat)
    requires d > 0
    ensures (x / d) * d <= x < (x / d + 1) * d
  {
  }

  /** Every row of the image lies in exactly one region, the one of its owner:
      the regions cover `[0, height)` with no gap and no overlap. */
  lemma RowInExactlyOneRegion(height: nat, numThreads: nat, row: nat, i: nat)
    requires numThreads >= 1 && row < height && i < numThreads
    ensures InRegion(height, numThreads, i, row) <==> i == Owner(height, numThreads, row)
  {
    if InRegion(height, numThreads, i, row) {
      InRegionIsOwner(height, numThreads, row, i);
    }
    if i == Owner(height, numThreads, row) {
      OwnerRegionHoldsRow(height, numThreads, row);
    }
  }

  /** The grid after workers `0 .. k - 1` have each applied `f` to their region,
      one after the other. */
  function RegionsApplied(g: Grid, numThreads: nat, k: nat, f: Pixel -> Pixel): (r: Grid)
    requires numThreads >= 1 && k <= numThreads
    ensures SameShape(g, r)
  {
    if k == 0 then g
    else MapRows(RegionsApplied(g, numThreads, k - 1, f),
                 RegionStart(|g|, numThreads, k - 1), RegionEnd(|g|, numThreads, k - 1), f)
  }

  /** After the first `k` workers, exactly the rows up to the end of region `k - 1`
      have been filtered. */
  lemma {:induction false} RegionsAppliedPrefix(g: Grid, numThreads: nat, k: nat, f: Pixel -> Pixel)
    requires numThreads >= 1 && 1 <= k <= numThreads
    ensures RegionsApplied(g, numThreads, k, f) == MapRows(g, 0, RegionEnd(|g|, numThreads, k - 1), f)
  {
    RegionsContiguous(|g|, numThreads);
    if k == 1 {
      assert RegionsApplied(g, numThreads, 0, f) == g;
    } else {
      RegionsAppliedPrefix(g, numThreads, k - 1, f);
      MapRowsAdjacent(g, 0, RegionStart(|g|, numThreads, k - 1), RegionEnd(|g|, numThreads, k - 1), f);
    }
  }

  /** Running every region of the partition equals one pass over the whole image. */
  lemma PartitionedPassEqualsWholePass(g: Grid, numThreads: nat, f: Pixel -> Pixel)
    requires numThreads >= 1
    ensures RegionsApplied(g, numThreads, numThreads, f) == MapRows(g, 0, |g|, f)
  {
    RegionsAppliedPrefix(g, numThreads, numThreads, f);
  }

  /** The partition loop and the join: one `apply_filter` per region, in worker order. */
  method ApplyFilterPartitioned(image: array2<Pixel>, numThreads: nat)
    requires numThreads >= 1
    modifies image
    ensures Cells(image) == RegionsApplied(old(Cells(image)), numThreads, numThreads, GrayscalePixel)
    ensures Cells(image) == MapPixels(old(Cells(image)), GrayscalePixel)
  {
    ghost var before := Cells(image);
    var height := image.Length0;
    var rowsPerRegion := height / numThreads;
    for i := 0 to numThreads
      invariant Cells(image) == RegionsApplied(before, numThreads, i, GrayscalePixel)
    {
      var startRow := i * rowsPerRegion;
      var endRow := if i == numThreads - 1 then height else (i + 1) * rowsPerRegion;
      RegionStartBound(height, numThreads, i);
      ApplyFilter(image, startRow, endRow);
    }
    PartitionedPassEqualsWholePass(before, numThreads, GrayscalePixel);
  }
}
