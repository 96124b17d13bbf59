# Field facet model

A model of Terasology's `FieldFacet3D` world-generation facet, as its test suite
`FieldFacetTest` pins it down. A facet is a dense 3D scalar field over an integer
region. The region is widened by a border, and every cell of the padded box holds
one value. Cells are addressed in two ways:

- region-local coordinates, where the region's minimum corner is the origin;
- world coordinates, where world = local + region minimum.

The border widens the range of valid coordinates. It does not shift the mapping
between world and local coordinates.

Modules:

- `Geometry` (`geometry.dfy`): points (`Vec3`), positive sizes (`Size3`), regions
  (`Region3`, built by `CreateFromMinAndSize`) and borders (`Border3`, with
  `ExtendBy`). It also derives the padded box's world minimum, relative minimum
  and size, and flattens a box row-major into storage indices (`IndexOf`,
  inverted by `OffsetOf`).
- `FieldFacet` (`field_facet.dfy`): the class `FieldFacet3D`. Its geometry is
  held in `const` fields and its values in a flat `array<real>`. `Get`,
  `GetWorld`, `Set` and `SetWorld` work in place. A ghost sequence `history`
  records the successful writes, oldest first. The invariant `Valid()` says
  every valid cell reads `ReadAfter(history, cell)`: the value of the last
  write to that cell, or 0 if it was never written.
- `FieldFacetTest` (`field_facet_test.dfy`): the suite's setup and each of its
  tests. Each test is a method that builds its own facet with `Setup`, since
  JUnit re-runs the `@Before` method before every test. Each test returns the
  values the test asserts on, and its postcondition is the assertion.

Border layout: `Border3(top, bottom, sides)` pads the low end of y by `bottom`,
the high end of y by `top`, and both ends of x and z by `sides`. The comment at
`FieldFacetTest.java:42` is consistent with this layout. It pins the second
argument as the low-y padding and the third as the padding of both ends of x
and z. The first argument is 0 in the suite, so its role is assumed. For region min (10,20,30), size
(40,50,60) and border `extendBy(0, 15, 10)`, it gives worldMin (0,5,20), relative
min (-10,-15,-10) and size (60,65,80). So y is padded by 15 below and 0 above.
Symmetric padding on y would give size 80 on y, not 65. The model follows the
code here, not a reading in which every axis is padded the same on both ends.

## Model

| member | source | states |
|---|---|---|
| `FieldFacetTest.SetupGeometry` | engine-tests/src/test/java/org/terasology/world/generation/facets/FieldFacetTest.java:37-42 | the suite's region and its border `Border3(0,0,0).ExtendBy(0,15,10)` give, through `PaddedWorldMin`, `PaddedRelativeMin` and `PaddedSize`, worldMin (0,5,20), relativeMin (-10,-15,-10) and size (60,65,80) |
| `FieldFacetTest.Setup` | engine-tests/src/test/java/org/terasology/world/generation/facets/FieldFacetTest.java:36-43 | setup yields a fresh, valid facet with that geometry and an empty write history, so every cell reads 0 |
| `FieldFacet.FieldFacet3D.constructor` | engine-tests/src/test/java/org/terasology/world/generation/facets/FieldFacetTest.java:41-45 | building a facet from a region and a border derives the padded geometry, allocates one zero value per cell, starts an empty write history, and makes every valid cell read 0 |
| `Geometry.PaddedBoxBounds` | engine-tests/src/test/java/org/terasology/world/generation/facets/FieldFacetTest.java:37-42 | a local coordinate is valid exactly when, per axis, it lies between minus the low padding and the region size plus the high padding (y: bottom below, top above; x and z: sides on both ends) |
| `Geometry.RegionInsidePaddedBox` | engine-tests/src/test/java/org/terasology/world/generation/facets/FieldFacetTest.java:98-102 | every cell of the region is valid in local and in world coordinates; the border only adds cells |
| `Geometry.WorldLocalBox` | engine-tests/src/test/java/org/terasology/world/generation/facets/FieldFacetTest.java:86-96 | a world coordinate is valid if and only if that coordinate minus the region minimum is a valid local coordinate, and adding the minimum back returns it |
| `Geometry.IndexOf` | engine-tests/src/test/java/org/terasology/world/generation/facets/FieldFacetTest.java:41-42 | every cell of the padded box has a storage index inside the array of size sx·sy·sz |
| `Geometry.OffsetOf` | engine-tests/src/test/java/org/terasology/world/generation/facets/FieldFacetTest.java:41-42 | every storage index belongs to a cell of the padded box, and that cell's index is the one given (each slot is used) |
| `Geometry.OffsetOfIndexOf` | engine-tests/src/test/java/org/terasology/world/generation/facets/FieldFacetTest.java:41-42 | flattening a cell and unflattening the index gives back the cell |
| `Geometry.IndexOfInjective` | engine-tests/src/test/java/org/terasology/world/generation/facets/FieldFacetTest.java:41-42 | distinct cells of the padded box are stored at distinct indices, so a write cannot reach a second cell |
| `FieldFacet.ReadAfterUnwritten` | engine-tests/src/test/java/org/terasology/world/generation/facets/FieldFacetTest.java:50-54 | by the write-history specification, a cell that no write touched reads 0 |
| `FieldFacet.ReadAfterLastWrite` | engine-tests/src/test/java/org/terasology/world/generation/facets/FieldFacetTest.java:68-84 | by the write-history specification, a written cell reads the value of its last write; later writes to other cells leave it alone, and earlier writes to it are replaced, not accumulated |
| `FieldFacet.FieldFacet3D.UnwrittenReadsZero` | engine-tests/src/test/java/org/terasology/world/generation/facets/FieldFacetTest.java:50-54 | in a valid facet, `Get` at a valid cell that no write touched returns 0 |
| `FieldFacet.FieldFacet3D.LastWriteWins` | engine-tests/src/test/java/org/terasology/world/generation/facets/FieldFacetTest.java:68-84 | in a valid facet, `Get` at a written cell returns the value of the last write to it |
| `FieldFacet.FieldFacet3D.Get` | engine-tests/src/test/java/org/terasology/world/generation/facets/FieldFacetTest.java:68-72 | reading local (x,y,z) of a valid facet returns `ReadAfter(history, cell)`: the value of the last write to that cell, or 0 if none |
| `FieldFacet.FieldFacet3D.GetWorld` | engine-tests/src/test/java/org/terasology/world/generation/facets/FieldFacetTest.java:86-90 | reading world (x,y,z) gives the value at local (x,y,z) minus the region minimum, which is valid whenever the world coordinate is |
| `FieldFacet.FieldFacet3D.Set` | engine-tests/src/test/java/org/terasology/world/generation/facets/FieldFacetTest.java:56-78 | a local write outside the padded box fails with IllegalArgument and changes nothing; otherwise it appends the write to the history and keeps the invariant, overwrites exactly that cell (`Get` there returns the value), and every other cell keeps its value |
| `FieldFacet.FieldFacet3D.SetWorld` | engine-tests/src/test/java/org/terasology/world/generation/facets/FieldFacetTest.java:92-96 | a world write outside the padded box fails with IllegalArgument and changes nothing; otherwise it appends a write to the local cell world minus region minimum, overwrites exactly that cell, and every other cell keeps its value |
| `FieldFacetTest.TestUnset` | engine-tests/src/test/java/org/terasology/world/generation/facets/FieldFacetTest.java:50-54 | an unset facet reads 0 at local (0,0,0) and at world (10,20,30) |
| `FieldFacetTest.TestRelBounds` | engine-tests/src/test/java/org/terasology/world/generation/facets/FieldFacetTest.java:56-59 | `set(-15,-15,-15, 1)` is rejected with IllegalArgument |
| `FieldFacetTest.TestWorldBounds` | engine-tests/src/test/java/org/terasology/world/generation/facets/FieldFacetTest.java:61-64 | `setWorld(0,0,0, 1)` is rejected with IllegalArgument (y = 0 is below worldMin.y = 5) |
| `FieldFacetTest.TestPrimitiveGetSet` | engine-tests/src/test/java/org/terasology/world/generation/facets/FieldFacetTest.java:68-72 | `set(0,1,2, 2.0)` succeeds and `get(0,1,2)` returns 2.0 |
| `FieldFacetTest.TestBoxedGetSet` | engine-tests/src/test/java/org/terasology/world/generation/facets/FieldFacetTest.java:74-78 | `set(0,1,3, 4)` succeeds and `get(0,1,3)` returns 4.0 |
| `FieldFacetTest.TestBoxedWorldGetSet` | engine-tests/src/test/java/org/terasology/world/generation/facets/FieldFacetTest.java:80-84 | `set(0,1,4, 8)` succeeds and `get(0,1,4)` returns 8.0; despite its name, this test uses local coordinates only |
| `FieldFacetTest.TestMixedGetSet1` | engine-tests/src/test/java/org/terasology/world/generation/facets/FieldFacetTest.java:86-90 | `set(0,1,5, 16)` succeeds and `getWorld(10,21,35)` returns 16 |
| `FieldFacetTest.TestMixedGetSet2` | engine-tests/src/test/java/org/terasology/world/generation/facets/FieldFacetTest.java:92-96 | `setWorld(24,35,46, 32)` succeeds and `get(14,15,16)` returns 32 |
| `FieldFacetTest.TestMixedOnBorder` | engine-tests/src/test/java/org/terasology/world/generation/facets/FieldFacetTest.java:98-102 | `set(-5,-6,-7, 64)` on a border cell succeeds and `getWorld(5,14,23)` returns 64 |

## Left out

- The implementation of `FieldFacet3D` is not part of this model. Only its
  test suite is, so the model is one array-backed facet. The abstract factory
  `createFacet` and the concrete facet classes it stands for are not modelled.
- `IndexOf` fixes the storage order as x fastest, then y, then z. The suite
  cannot observe the order. Only the bounds and injectivity matter, and those
  are proved.
- Values are Dafny `real`s, not 32-bit floats, so rounding is not modelled. The
  suite writes only powers of two, which a float holds exactly.
- The `float` and `Integer` overloads of `set` are one `Set` on `real`. An
  integer argument is passed as `n as real`, which is the value `floatValue()`
  gives for the small integers the suite uses.
- `Get` and `GetWorld` require a valid coordinate. The suite never reads outside
  the padded box, so the model does not decide what such a read does.
- `Region3i`, `Vector3i` and `Border3D` are not part of this model. They are
  reduced to the records `Region3`, `Vec3` and `Border3`. Region sizes are
  positive by type (`Extent`), so the empty region that `createFromMinAndSize`
  builds from a non-positive size is not modelled. The constructor argument
  order `Border3D(top, bottom, sides)` is inferred from the geometry stated at
  `FieldFacetTest.java:42`.
- `Border3.HighPad` and `PaddedSize`: that the first `Border3D` argument pads
  the high end of y is an assumption. The suite always passes 0 there, so it
  pins only that the high-y padding is 0 in its setup.
- Integer width is not modelled. Coordinates, sizes, borders and the storage
  index `x + sx·(y + sy·z)` are unbounded integers, while the Java API uses
  32-bit `int`. So overflow of `min - border`, of `min + size` or of the volume
  `sx·sy·sz` cannot happen in the model. The suite's values are far below 2^31.
- JUnit itself is not modelled. That covers the test runner, the `@Before`
  field (each test builds its own facet instead) and the assertion delta of
  0.0, which is exact equality here.
- The world-generation pipeline that creates and consumes facets is not part of
  this model.
