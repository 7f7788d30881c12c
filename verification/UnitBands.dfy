/** Storage units of tiled columns: the arithmetic of MakeRowUnitStart (data_partition.cc). */
module UnitBands {
  import opened MixedRadix
  import opened RowSplit

  /**
   The offset of a row in its band of tiles, as MakeRowUnitStart computes it from the
   position of the row along the row axes of its hypercube, fastest first.
   */
  method BandOffset(position: seq<nat>, cubeShape: seq<nat>, tile: nat) returns (offset: nat)
    requires 0 < |cubeShape| && InBox(position, cubeShape) && tile > 0
    ensures tile * Stride(cubeShape, |cubeShape| - 1) > 0
    ensures offset == Rank(cubeShape, position) % (tile * Stride(cubeShape, |cubeShape| - 1))
    ensures offset <= Rank(cubeShape, position)
  {
    var last := |cubeShape| - 1;
    offset := position[last] % tile;
    ghost var whole := offset * Stride(cubeShape, last) + Offset(cubeShape, position, last);
    var d := last;
    while d > 0
      invariant 0 <= d <= last
      invariant offset * Stride(cubeShape, d) + Offset(cubeShape, position, d) == whole
    {
      d := d - 1;
      HornerStep(offset, cubeShape[d], position[d], Stride(cubeShape, d));
      offset := offset * cubeShape[d] + position[d];
    }
    BandRemainder(position, cubeShape, tile);
  }

  lemma BandRemainder(position: seq<nat>, cubeShape: seq<nat>, tile: nat)
    requires 0 < |cubeShape| && InBox(position, cubeShape) && tile > 0
    ensures var last := |cubeShape| - 1;
            var s := Stride(cubeShape, last);
            var offset := position[last] % tile * s + Offset(cubeShape, position, last);
            && tile * s > 0
            && offset == Rank(cubeShape, position) % (tile * s)
            && offset <= Rank(cubeShape, position)
  {
    var last := |cubeShape| - 1;
    OffsetBound(cubeShape, position, last);
    BandArithmetic(position[last], tile, Stride(cubeShape, last), Offset(cubeShape, position, last));
  }

  lemma BandArithmetic(c: nat, tile: nat, s: nat, low: nat)
    requires tile > 0 && low < s
    ensures tile * s > 0 && c % tile * s + low == (low + c * s) % (tile * s) && c % tile * s + low <= low + c * s
  {
    var q, t := c / tile, c % tile;
    assert c == q * tile + t;
    MulBound(t, tile, s, low);
    HornerStep(q, tile, t, s);
    BandSplit(q, tile * s, t * s, low, low + c * s);
  }

  lemma BandSplit(q: nat, band: nat, t: nat, low: nat, row: nat)
    requires low + t < band && row == low + (q * band + t)
    ensures t + low == row % band && t + low <= row
  {
    DivUnique(row, band, q, t + low);
  }

  // The unit of a row in a hypercube holding rows base .. base + count in order, its bands
  // band rows long. Other rows are units of their own. Dysco's blocks are such bands too.
  function StartOfBand(base: nat, count: nat, band: nat, row: nat): nat
    requires band > 0
  {
    if base <= row < base + count then base + (row - base - (row - base) % band) else row
  }

  function BandStart(base: nat, count: nat, band: nat): RowUnitStart
    requires band > 0
  {
    row => StartOfBand(base, count, band, row)
  }

  lemma BandIdempotent(base: nat, count: nat, band: nat, row: nat)
    requires band > 0
    ensures StartOfBand(base, count, band, row) <= row
    ensures StartOfBand(base, count, band, StartOfBand(base, count, band, row)) == StartOfBand(base, count, band, row)
  {
    if base <= row < base + count {
      var k := row - base;
      assert k == band * (k / band) + k % band;
      DivUnique(k - k % band, band, k / band, 0);
    }
  }

  lemma BandMonotone(base: nat, count: nat, band: nat, r: nat, s: nat)
    requires band > 0 && r <= s
    ensures StartOfBand(base, count, band, r) <= StartOfBand(base, count, band, s)
  {
    if base <= r && s < base + count {
      var j, k := r - base, s - base;
      assert j == band * (j / band) + j % band && k == band * (k / band) + k % band;
      DivMonotone(j, k, band);
      MulMonotone(band, j / band, k / band);
    } else {
      BandIdempotent(base, count, band, r);
    }
  }

  /** Bands of consecutively numbered rows are units that boundaries can be aligned to. */
  lemma BandStartIsUnitFunction(base: nat, count: nat, band: nat)
    requires band > 0
    ensures IsUnitFunction(BandStart(base, count, band))
  {
    forall r: nat
      ensures StartOfBand(base, count, band, r) <= r
      ensures StartOfBand(base, count, band, StartOfBand(base, count, band, r)) == StartOfBand(base, count, band, r)
    {
      BandIdempotent(base, count, band, r);
    }
    forall r: nat, s: nat | r <= s
      ensures StartOfBand(base, count, band, r) <= StartOfBand(base, count, band, s)
    {
      BandMonotone(base, count, band, r, s);
    }
  }

  /**
   The first row of the unit of a row, never after it. When the rows of the hypercube are
   numbered consecutively from base, this is the start of the row's band.
   */
  method UnitStartOf(row: nat, position: seq<nat>, cubeShape: seq<nat>, tile: nat, ghost base: nat)
    returns (start: nat)
    requires 0 < |cubeShape| && InBox(position, cubeShape) && tile > 0
    ensures start <= row && tile * Stride(cubeShape, |cubeShape| - 1) > 0
    ensures row == base + Rank(cubeShape, position) ==>
              start == BandStart(base, Product(cubeShape), tile * Stride(cubeShape, |cubeShape| - 1))(row)
  {
    var offset := BandOffset(position, cubeShape, tile);
    OffsetBound(cubeShape, position, |cubeShape|);
    start := if offset <= row then row - offset else row;
  }
}
