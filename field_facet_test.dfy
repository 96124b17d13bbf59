/**
 * The scenarios of the field facet test suite. Each test works on a facet
 * freshly built by `Setup`, as the suite rebuilds it before every test, and
 * returns the values the test asserts on; its postcondition is the assertion.
 */
module FieldFacetTest {
  import opened Geometry
  import opened FieldFacet

  /** The region of the suite: minimum corner (10, 20, 30), size (40, 50, 60). */
  function SetupRegion(): Region3 {
    CreateFromMinAndSize(Vec3(10, 20, 30), Size3(40, 50, 60))
  }

  /** The border of the suite: no padding, extended by top 0, bottom 15, sides 10. */
  function SetupBorder(): Border3 {
    Border3(0, 0, 0).ExtendBy(0, 15, 10)
  }

  /** The geometry the suite's setup expects of its facet. */
  lemma SetupGeometry()
    ensures PaddedWorldMin(SetupRegion(), SetupBorder()) == Vec3(0, 5, 20)
    ensures PaddedRelativeMin(SetupBorder()) == Vec3(-10, -15, -10)
    ensures PaddedSize(SetupRegion(), SetupBorder()) == Size3(60, 65, 80)
  {
  }

  /** Builds the suite's facet: every cell reads 0. */
  method Setup() returns (facet: FieldFacet3D)
    ensures fresh(facet) && fresh(facet.values) && facet.Valid()
    ensures facet.region == SetupRegion() && facet.border == SetupBorder()
    ensures facet.worldMin == Vec3(0, 5, 20)
    ensures facet.relativeMin == Vec3(-10, -15, -10)
    ensures facet.size == Size3(60, 65, 80)
    ensures facet.history == []
  {
    facet := new FieldFacet3D(SetupRegion(), SetupBorder());
    SetupGeometry();
  }

  /** Unset cells read 0, at local (0, 0, 0) and at the same cell's world coordinate. */
  method TestUnset() returns (local: real, world: real)
    ensures local == 0.0 && world == 0.0
  {
    var facet := Setup();
    facet.UnwrittenReadsZero(0, 0, 0);
    local := facet.Get(0, 0, 0);
    world := facet.GetWorld(10, 20, 30);
  }

  /** A local write below the padded box on x and z (y = -15 is the lowest valid y) is rejected. */
  method TestRelBounds() returns (outcome: Outcome)
    ensures outcome == Fail(IllegalArgument)
  {
    var facet := Setup();
    outcome := facet.Set(-15, -15, -15, 1.0);
  }

  /** A world write at (0, 0, 0), below the padded box on y and z, is rejected. */
  method TestWorldBounds() returns (outcome: Outcome)
    ensures outcome == Fail(IllegalArgument)
  {
    var facet := Setup();
    outcome := facet.SetWorld(0, 0, 0, 1.0);
  }

  /** A value written at a local coordinate reads back there. */
  method TestPrimitiveGetSet() returns (outcome: Outcome, v: real)
    ensures outcome == Pass && v == 2.0
  {
    var facet := Setup();
    outcome := facet.Set(0, 1, 2, 2.0);
    v := facet.Get(0, 1, 2);
  }

  /** An integer written at a local coordinate reads back as the equal real. */
  method TestBoxedGetSet() returns (outcome: Outcome, v: real)
    ensures outcome == Pass && v == 4.0
  {
    var facet := Setup();
    outcome := facet.Set(0, 1, 3, 4 as real);
    v := facet.Get(0, 1, 3);
  }

  /** The same with 8 at (0, 1, 4); this test, too, uses local coordinates only. */
  method TestBoxedWorldGetSet() returns (outcome: Outcome, v: real)
    ensures outcome == Pass && v == 8.0
  {
    var facet := Setup();
    outcome := facet.Set(0, 1, 4, 8 as real);
    v := facet.Get(0, 1, 4);
  }

  /** A local write at (0, 1, 5) reads back at world (10, 21, 35). */
  method TestMixedGetSet1() returns (outcome: Outcome, v: real)
    ensures outcome == Pass && v == 16.0
  {
    var facet := Setup();
    outcome := facet.Set(0, 1, 5, 16 as real);
    assert facet.Get(0, 1, 5) == 16.0;
    v := facet.GetWorld(10, 21, 35);
  }

  /** A world write at (24, 35, 46) reads back at local (14, 15, 16). */
  method TestMixedGetSet2() returns (outcome: Outcome, v: real)
    ensures outcome == Pass && v == 32.0
  {
    var facet := Setup();
    outcome := facet.SetWorld(24, 35, 46, 32 as real);
    v := facet.Get(14, 15, 16);
  }

  /**
   * A cell in the border, outside the region but inside the padded box,
   * behaves like any other: local (-5, -6, -7) reads back at world (5, 14, 23).
   */
  method TestMixedOnBorder() returns (outcome: Outcome, v: real)
    ensures outcome == Pass && v == 64.0
  {
    var facet := Setup();
    outcome := facet.Set(-5, -6, -7, 64 as real);
    assert facet.Get(-5, -6, -7) == 64.0;
    v := facet.GetWorld(5, 14, 23);
  }
}
