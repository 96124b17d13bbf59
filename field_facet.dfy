/**
 * A field facet: a dense scalar field over a region widened by a border,
 * stored in one flat array and addressed either in region-local
 * coordinates (the region's minimum corner is the origin) or in world
 * coordinates (world = local + region minimum).
 */
module FieldFacet {
  import opened Geometry

  /** The only failure a facet reports: a coordinate outside its padded box. */
  datatype FacetError = IllegalArgument

  /** The outcome of a write: it either happens or is rejected. */
  datatype Outcome = Pass | Fail(error: FacetError)

  /** One write to a facet: a local cell and the value stored there. */
  datatype Write = Write(cell: Vec3, value: real)

  /**
   * What cell `p` reads after the writes in `history`, oldest first: the
   * value of the last write to `p`, or 0 when `p` was never written.
   */
  function ReadAfter(history: seq<Write>, p: Vec3): real {
    if history == [] then 0.0
    else if Last(history).cell == p then Last(history).value
    else ReadAfter(history[..|history| - 1], p)
  }

  function Last(history: seq<Write>): Write
    requires history != []
  {
    history[|history| - 1]
  }

  /** A cell that no write touched reads 0. */
  lemma {:induction false} ReadAfterUnwritten(history: seq<Write>, p: Vec3)
    requires forall i :: 0 <= i < |history| ==> history[i].cell != p
    ensures ReadAfter(history, p) == 0.0
  {
    if history != [] {
      ReadAfterUnwritten(history[..|history| - 1], p);
    }
  }

  /**
   * A written cell reads the value of its last write: later writes to other
   * cells do not disturb it, and earlier writes to it are replaced, not added.
   */
  lemma {:induction false} ReadAfterLastWrite(history: seq<Write>, p: Vec3, i: int)
    requires 0 <= i < |history| && history[i].cell == p
    requires forall j :: i < j < |history| ==> history[j].cell != p
    ensures ReadAfter(history, p) == history[i].value
  {
    if i < |history| - 1 {
      ReadAfterLastWrite(history[..|history| - 1], p, i);
    }
  }

  class FieldFacet3D {
    /** The region the facet was created for. */
    const region: Region3
    /** The padding around the region that the facet also stores. */
    const border: Border3
    /** Lowest corner of the padded box, in world coordinates. */
    const worldMin: Vec3
    /** Lowest corner of the padded box, in local coordinates. */
    const relativeMin: Vec3
    /** Size of the padded box. */
    const size: Size3
    /** One value per cell of the padded box, in row-major order. */
    const values: array<real>
    /** The successful writes since construction, oldest first, in local coordinates. */
    ghost var history: seq<Write>

    /**
     * The geometry is derived from the region and the border, and the
     * storage holds exactly one value per cell of the padded box.
     */
    ghost predicate WellFormed() {
      && worldMin == PaddedWorldMin(region, border)
      && relativeMin == PaddedRelativeMin(border)
      && size == PaddedSize(region, border)
      && values.Length == size.Volume()
    }

    /**
     * The object invariant: the facet is well formed, and every cell reads
     * what its write history says (the last value written there, or 0).
     */
    ghost predicate Valid()
      reads this, values
    {
      && WellFormed()
      && forall p :: ContainsLocal(p) ==> values[LocalIndex(p)] == ReadAfter(history, p)
    }

    /** `p`, in local coordinates, lies in the padded box. */
    predicate ContainsLocal(p: Vec3) {
      InBox(relativeMin, size, p)
    }

    /** `w`, in world coordinates, lies in the padded box. */
    predicate ContainsWorld(w: Vec3) {
      InBox(worldMin, size, w)
    }

    /** Where the cell at local coordinate `p` is stored. */
    function LocalIndex(p: Vec3): (i: int)
      requires ContainsLocal(p)
      ensures 0 <= i < size.Volume()
    {
      IndexOf(size, p.Minus(relativeMin))
    }

    /** Where the cell at world coordinate `w` is stored. */
    function WorldIndex(w: Vec3): (i: int)
      requires ContainsWorld(w)
      ensures 0 <= i < size.Volume()
    {
      IndexOf(size, w.Minus(worldMin))
    }

    /** Allocates a zero-filled facet for `region` padded by `border`. */
    constructor (region: Region3, border: Border3)
      ensures Valid() && fresh(values)
      ensures this.region == region && this.border == border
      ensures history == []
      ensures forall x, y, z :: ContainsLocal(Vec3(x, y, z)) ==> Get(x, y, z) == 0.0
    {
      this.region := region;
      this.border := border;
      worldMin := PaddedWorldMin(region, border);
      relativeMin := PaddedRelativeMin(border);
      var padded := PaddedSize(region, border);
      size := padded;
      values := new real[padded.Volume()](_ => 0.0);
      history := [];
    }

    /**
     * The value at local coordinate (x, y, z); in a valid facet, the value
     * of the last write to that cell, or 0 if it was never written.
     */
    function Get(x: int, y: int, z: int): (v: real)
      reads this, values
      requires WellFormed() && ContainsLocal(Vec3(x, y, z))
      ensures Valid() ==> v == ReadAfter(history, Vec3(x, y, z))
    {
      values[LocalIndex(Vec3(x, y, z))]
    }

    /**
     * The value at world coordinate (x, y, z): the value at the local
     * coordinate obtained by subtracting the region's minimum corner.
     */
    function GetWorld(x: int, y: int, z: int): (v: real)
      reads this, values
      requires WellFormed() && ContainsWorld(Vec3(x, y, z))
      ensures ContainsLocal(Vec3(x - region.min.x, y - region.min.y, z - region.min.z))
      ensures v == Get(x - region.min.x, y - region.min.y, z - region.min.z)
    {
      values[WorldIndex(Vec3(x, y, z))]
    }

    /** A valid cell never written reads 0. */
    lemma UnwrittenReadsZero(x: int, y: int, z: int)
      requires Valid() && ContainsLocal(Vec3(x, y, z))
      requires forall i :: 0 <= i < |history| ==> history[i].cell != Vec3(x, y, z)
      ensures Get(x, y, z) == 0.0
    {
      ReadAfterUnwritten(history, Vec3(x, y, z));
    }

    /** A written cell reads the value of the last write to it. */
    lemma LastWriteWins(x: int, y: int, z: int, i: int)
      requires Valid() && ContainsLocal(Vec3(x, y, z))
      requires 0 <= i < |history| && history[i].cell == Vec3(x, y, z)
      requires forall j :: i < j < |history| ==> history[j].cell != Vec3(x, y, z)
      ensures Get(x, y, z) == history[i].value
    {
      ReadAfterLastWrite(history, Vec3(x, y, z), i);
    }

    /**
     * Stores `value` at local coordinate (x, y, z). A coordinate outside the
     * padded box is rejected and nothing changes; otherwise the write joins
     * the history, that one cell is overwritten and every other cell keeps
     * its value.
     */
    method Set(x: int, y: int, z: int, value: real) returns (outcome: Outcome)
      requires Valid()
      modifies this, values
      ensures Valid()
      ensures outcome == if ContainsLocal(Vec3(x, y, z)) then Pass else Fail(IllegalArgument)
      ensures outcome.Fail? ==> values[..] == old(values[..]) && history == old(history)
      ensures outcome.Pass? ==> history == old(history) + [Write(Vec3(x, y, z), value)]
      ensures outcome.Pass? ==> forall a, b, c :: ContainsLocal(Vec3(a, b, c)) ==>
        Get(a, b, c) == if (a, b, c) == (x, y, z) then value else old(Get(a, b, c))
    {
      var p := Vec3(x, y, z);
      if !ContainsLocal(p) {
        return Fail(IllegalArgument);
      }
      Overwrite(p, LocalIndex(p), value);
      outcome := Pass;
    }

    /**
     * Stores `value` at world coordinate (x, y, z), which is the local
     * coordinate (x, y, z) minus the region's minimum corner. A coordinate
     * outside the padded box is rejected and nothing changes.
     */
    method SetWorld(x: int, y: int, z: int, value: real) returns (outcome: Outcome)
      requires Valid()
      modifies this, values
      ensures Valid()
      ensures outcome == if ContainsWorld(Vec3(x, y, z)) then Pass else Fail(IllegalArgument)
      ensures outcome.Fail? ==> values[..] == old(values[..]) && history == old(history)
      ensures outcome.Pass? ==> history == old(history) + [Write(Vec3(x, y, z).Minus(region.min), value)]
      ensures outcome.Pass? ==> forall a, b, c :: ContainsLocal(Vec3(a, b, c)) ==>
        Get(a, b, c) == if Vec3(a, b, c).Plus(region.min) == Vec3(x, y, z) then value else old(Get(a, b, c))
    {
      var w := Vec3(x, y, z);
      if !ContainsWorld(w) {
        return Fail(IllegalArgument);
      }
      WorldLocalBox(region, border, w);
      var p := w.Minus(region.min);
      assert WorldIndex(w) == LocalIndex(p);
      Overwrite(p, WorldIndex(w), value);
      outcome := Pass;
    }

    /** Writes `value` into storage slot `i`, the slot of local coordinate `p`. */
    method Overwrite(p: Vec3, i: int, value: real)
      requires Valid() && ContainsLocal(p) && i == LocalIndex(p)
      modifies this, values
      ensures Valid()
      ensures values[..] == old(values[..])[i := value]
      ensures history == old(history) + [Write(p, value)]
      ensures forall a, b, c :: ContainsLocal(Vec3(a, b, c)) ==>
        Get(a, b, c) == if Vec3(a, b, c) == p then value else old(Get(a, b, c))
    {
      values[i] := value;
      history := history + [Write(p, value)];
      forall q | ContainsLocal(q) && q != p
        ensures LocalIndex(q) != i
      {
        IndexOfInjective(size, q.Minus(relativeMin), p.Minus(relativeMin));
      }
    }
  }
}
