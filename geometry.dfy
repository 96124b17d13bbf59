/**
 * Integer geometry behind a field facet: points, regions given by a minimum
 * corner and a positive size, borders that pad a region, and the row-major
 * flattening of a box of cells into one storage index.
 */
module Geometry {

  /** A strictly positive extent along one axis. */
  type Extent = n: int | n > 0 witness 1

  /** An integer point or offset in three dimensions. */
  datatype Vec3 = Vec3(x: int, y: int, z: int) {
    function Plus(o: Vec3): Vec3 { Vec3(x + o.x, y + o.y, z + o.z) }
    function Minus(o: Vec3): Vec3 { Vec3(x - o.x, y - o.y, z - o.z) }
    function Negated(): Vec3 { Vec3(-x, -y, -z) }
  }

  /** The size of a non-empty box. */
  datatype Size3 = Size3(x: Extent, y: Extent, z: Extent) {
    function Volume(): int { x * (y * z) }
  }

  /** An axis-aligned box of cells: `min` is its lowest corner, `size` its extent. */
  datatype Region3 = Region3(min: Vec3, size: Size3)

  /** The region that starts at `min` and spans `size` cells on each axis. */
  function CreateFromMinAndSize(min: Vec3, size: Size3): Region3 {
    Region3(min, size)
  }

  /**
   * Padding around a region: `top` cells above it (high y), `bottom` cells
   * below it (low y) and `sides` cells on both ends of x and of z.
   */
  datatype Border3 = Border3(top: nat, bottom: nat, sides: nat) {
    /** The border grown by the given amounts. */
    function ExtendBy(t: nat, b: nat, s: nat): Border3 {
      Border3(top + t, bottom + b, sides + s)
    }
    /** Padding on the low end of each axis. */
    function LowPad(): Vec3 { Vec3(sides, bottom, sides) }
    /** Padding on the high end of each axis. */
    function HighPad(): Vec3 { Vec3(sides, top, sides) }
  }

  /** `p` lies in the box that starts at `min` and spans `size`. */
  predicate InBox(min: Vec3, size: Size3, p: Vec3) {
    && min.x <= p.x < min.x + size.x
    && min.y <= p.y < min.y + size.y
    && min.z <= p.z < min.z + size.z
  }

  /** The padded box, in world coordinates: its lowest corner. */
  function PaddedWorldMin(region: Region3, border: Border3): Vec3 {
    region.min.Minus(border.LowPad())
  }

  /** The padded box, in region-local coordinates: its lowest corner. */
  function PaddedRelativeMin(border: Border3): Vec3 {
    border.LowPad().Negated()
  }

  /** The padded box's size: the region's size plus both paddings. */
  function PaddedSize(region: Region3, border: Border3): Size3 {
    var low, high := border.LowPad(), border.HighPad();
    Size3(region.size.x + low.x + high.x,
          region.size.y + low.y + high.y,
          region.size.z + low.z + high.z)
  }

  /**
   * The padded box extends the region by exactly the low padding below and
   * the high padding above, on each axis.
   */
  lemma PaddedBoxBounds(region: Region3, border: Border3, local: Vec3)
    ensures InBox(PaddedRelativeMin(border), PaddedSize(region, border), local) <==>
      && -(border.sides as int) <= local.x < region.size.x + border.sides
      && -(border.bottom as int) <= local.y < region.size.y + border.top
      && -(border.sides as int) <= local.z < region.size.z + border.sides
  {
  }

  /** Every cell of the region itself lies in the padded box. */
  lemma RegionInsidePaddedBox(region: Region3, border: Border3, local: Vec3)
    requires InBox(Vec3(0, 0, 0), region.size, local)
    ensures InBox(PaddedRelativeMin(border), PaddedSize(region, border), local)
    ensures InBox(PaddedWorldMin(region, border), PaddedSize(region, border), local.Plus(region.min))
  {
  }

  /**
   * Translating by the region's minimum corner maps the padded box in local
   * coordinates onto the padded box in world coordinates, in both directions.
   */
  lemma WorldLocalBox(region: Region3, border: Border3, world: Vec3)
    ensures InBox(PaddedWorldMin(region, border), PaddedSize(region, border), world) <==>
            InBox(PaddedRelativeMin(border), PaddedSize(region, border), world.Minus(region.min))
    ensures world.Minus(region.min).Plus(region.min) == world
  {
  }

  // ---------------------------------------------------------------------
  // Row-major flattening of a box into storage indices
  // ---------------------------------------------------------------------

  /** The storage index of the cell at `offset` from a box's lowest corner. */
  function IndexOf(size: Size3, offset: Vec3): (i: int)
    requires InBox(Vec3(0, 0, 0), size, offset)
    ensures 0 <= i < size.Volume()
  {
    MulAddBelow(offset.y, offset.z, size.y, size.z);
    MulAddBelow(offset.x, offset.y + size.y * offset.z, size.x, size.y * size.z);
    offset.x + size.x * (offset.y + size.y * offset.z)
  }

  /** The offset of the cell stored at index `i`: the inverse of `IndexOf`. */
  function OffsetOf(size: Size3, i: int): (offset: Vec3)
    requires 0 <= i < size.Volume()
    ensures InBox(Vec3(0, 0, 0), size, offset)
    ensures IndexOf(size, offset) == i
  {
    var row := i / size.x;
    DivBelow(i, size.x, size.y * size.z);
    var layer := row / size.y;
    DivBelow(row, size.y, size.z);
    Vec3(i % size.x, row % size.y, layer)
  }

  /** Flattening then unflattening gives back the cell. */
  lemma OffsetOfIndexOf(size: Size3, offset: Vec3)
    requires InBox(Vec3(0, 0, 0), size, offset)
    ensures OffsetOf(size, IndexOf(size, offset)) == offset
  {
    var row := offset.y + size.y * offset.z;
    DivModOfMulAdd(offset.x, row, size.x);
    DivModOfMulAdd(offset.y, offset.z, size.y);
  }

  /** Distinct cells of a box are stored at distinct indices. */
  lemma IndexOfInjective(size: Size3, a: Vec3, b: Vec3)
    requires InBox(Vec3(0, 0, 0), size, a) && InBox(Vec3(0, 0, 0), size, b)
    requires a != b
    ensures IndexOf(size, a) != IndexOf(size, b)
  {
    OffsetOfIndexOf(size, a);
    OffsetOfIndexOf(size, b);
  }

  // ---------------------------------------------------------------------
  // Arithmetic helpers
  // ---------------------------------------------------------------------

  lemma MulAddBelow(a: int, b: int, n: int, m: int)
    requires 0 <= a < n && 0 <= b < m
    ensures 0 <= a + n * b < n * m
  {
    assert n * b <= n * (m - 1);
  }

  lemma DivBelow(i: int, n: int, m: int)
    requires 0 <= i < n * m && n > 0
    ensures 0 <= i / n < m
  {
  }

  lemma DivModOfMulAdd(a: int, b: int, n: int)
    requires 0 <= a < n && 0 <= b
    ensures (a + n * b) / n == b && (a + n * b) % n == a
  {
    var q, r := (a + n * b) / n, (a + n * b) % n;
    assert n * (q - b) == a - r;
    SmallMultipleIsZero(n, q - b);
  }

  lemma SmallMultipleIsZero(n: int, k: int)
    requires n > 0 && -n < n * k < n
    ensures k == 0
  {
  }
}
