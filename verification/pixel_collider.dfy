/** `PixelCollider`: a coarse pixel mask of an entity, rebuilt every update
    by a pre-order walk over the entity's hierarchy that records one pixel per
    part carrying a bounding box. */
module PixelCollider {
  import opened Outcomes

  datatype Vec3 = Vec3(x: real, y: real, z: real)

  datatype Quat = Quat(x: real, y: real, z: real, w: real)

  const IdentityQuat := Quat(0.0, 0.0, 0.0, 1.0)

  /** Axis-aligned bounding box of a part, in the part's local frame. */
  datatype Aabb = Aabb(center: Vec3, halfExtents: Vec3)

  /** A part's world transform, as decomposed from its global transform. */
  datatype Transform = Transform(translation: Vec3, rotation: Quat)

  /** A part that can be hit: its box and where it sits in the world. */
  datatype Placement = Placement(aabb: Aabb, transform: Transform)

  /** An entity with its descendants. `placement` is present exactly when the
      entity has both a bounding box and a global transform; `children` lists
      its children in their enumeration order. */
  datatype Part = Part(placement: Option<Placement>, children: seq<Part>)

  /** A mask pixel: a pair of 32-bit signed integers. */
  datatype Pixel = Pixel(x: int, y: int)

  datatype Collider = Collider(pixels: seq<Pixel>)

  const I32Min: int := -0x8000_0000
  const I32Max: int := 0x7fff_ffff

  /** A float-to-`i32` cast: truncation toward zero, saturating at the bounds
      of the type. */
  function TruncToI32(v: real): (n: int)
    ensures I32Min <= n <= I32Max
    ensures 0.0 <= v < (I32Max + 1) as real ==> n as real <= v < n as real + 1.0
    ensures (I32Min - 1) as real < v <= 0.0 ==> n as real - 1.0 < v <= n as real
    ensures v >= (I32Max + 1) as real ==> n == I32Max
    ensures v <= (I32Min - 1) as real ==> n == I32Min
  {
    var t := if v >= 0.0 then v.Floor else -((-v).Floor);
    if t > I32Max then I32Max else if t < I32Min then I32Min else t
  }

  function Add(a: Vec3, b: Vec3): Vec3 {
    Vec3(a.x + b.x, a.y + b.y, a.z + b.z)
  }

  /** The top-left corner of a box in the y-up frame, lifted to z = 0. */
  function TopLeft(b: Aabb): Vec3 {
    Vec3(b.center.x - b.halfExtents.x, b.center.y + b.halfExtents.y, 0.0)
  }

  /** The pixel recorded for one placed part: its box's top-left corner,
      rotated by `rotate(rotation, _)`, translated, and cast to `i32`. */
  function DeterminePixel(p: Placement, rotate: (Quat, Vec3) -> Vec3): (px: Pixel)
    ensures I32Min <= px.x <= I32Max && I32Min <= px.y <= I32Max
  {
    var corner := Add(p.transform.translation, rotate(p.transform.rotation, TopLeft(p.aabb)));
    Pixel(TruncToI32(corner.x), TruncToI32(corner.y))
  }

  /** With no rotation the pixel is the translated top-left corner, truncated. */
  lemma UnrotatedPixel(p: Placement, rotate: (Quat, Vec3) -> Vec3)
    requires p.transform.rotation == IdentityQuat
    requires forall v :: rotate(IdentityQuat, v) == v
    ensures var t, b := p.transform.translation, p.aabb;
      DeterminePixel(p, rotate) == Pixel(
        TruncToI32(t.x + (b.center.x - b.halfExtents.x)),
        TruncToI32(t.y + (b.center.y + b.halfExtents.y)))
  {
  }

  /** `PixelCollider::new`. */
  function NewCollider(): (c: Collider)
    ensures |c.pixels| == 0
  {
    Collider([])
  }

  // ---------------------------------------------------------------------
  // The walk as the program performs it: `recurse` appends to the collider's
  // pixel list, first for the part itself, then for each child in turn. The
  // walk is stated for any per-part pixel function `pixelOf`; the program's
  // is `PixelOf(rotate)`.

  /** `determine_pixels` as a per-part pixel function. */
  function PixelOf(rotate: (Quat, Vec3) -> Vec3): Placement -> Pixel {
    p => DeterminePixel(p, rotate)
  }

  /** Appends exactly one pixel per placed part of the subtree. */
  function Recurse(t: Part, pixels: seq<Pixel>, pixelOf: Placement -> Pixel): (r: seq<Pixel>)
    ensures |r| == |pixels| + CountPlaced(t)
    decreases t, 1
  {
    var withOwn := match t.placement
      case Some(p) => pixels + [pixelOf(p)]
      case None => pixels;
    RecurseChildren(t, 0, withOwn, pixelOf)
  }

  /** The loop over children `i..`: appends one pixel per placed part among them. */
  function RecurseChildren(t: Part, i: nat, pixels: seq<Pixel>, pixelOf: Placement -> Pixel): (r: seq<Pixel>)
    requires i <= |t.children|
    ensures |r| == |pixels| + CountPlacedFrom(t, i)
    decreases t, 0, |t.children| - i
  {
    if i == |t.children| then pixels
    else RecurseChildren(t, i + 1, Recurse(t.children[i], pixels, pixelOf), pixelOf)
  }

  /** The body of `update_pixel_colliders` for one entity: clear, then walk. */
  function Rebuild(c: Collider, t: Part, pixelOf: Placement -> Pixel): (r: Collider)
    ensures r.pixels == PreOrder(t, pixelOf)
  {
    RecurseIsPreOrder(t, [], pixelOf);
    c.(pixels := Recurse(t, [], pixelOf))
  }

  // ---------------------------------------------------------------------
  // A reference definition of the mask, independent of the accumulator.

  /** What a part contributes for itself: one pixel if placed, none otherwise. */
  function Own(t: Part, pixelOf: Placement -> Pixel): seq<Pixel> {
    match t.placement
    case Some(p) => [pixelOf(p)]
    case None => []
  }

  /** Pre-order: a part's own pixel, then its children's masks in order. */
  function PreOrder(t: Part, pixelOf: Placement -> Pixel): seq<Pixel>
    decreases t, 1
  {
    Own(t, pixelOf) + PreOrderFrom(t, 0, pixelOf)
  }

  /** The masks of children `i..` of `t`, concatenated in order. */
  function PreOrderFrom(t: Part, i: nat, pixelOf: Placement -> Pixel): seq<Pixel>
    requires i <= |t.children|
    decreases t, 0, |t.children| - i
  {
    if i == |t.children| then [] else PreOrder(t.children[i], pixelOf) + PreOrderFrom(t, i + 1, pixelOf)
  }

  /** The number of placed parts in a hierarchy. */
  function CountPlaced(t: Part): nat
    decreases t, 1
  {
    (if t.placement.Some? then 1 else 0) + CountPlacedFrom(t, 0)
  }

  function CountPlacedFrom(t: Part, i: nat): nat
    requires i <= |t.children|
    decreases t, 0, |t.children| - i
  {
    if i == |t.children| then 0 else CountPlaced(t.children[i]) + CountPlacedFrom(t, i + 1)
  }

  /** The walk appends exactly the pre-order mask of the subtree to whatever
      the list held before. */
  lemma {:induction false} RecurseIsPreOrder(t: Part, pixels: seq<Pixel>, pixelOf: Placement -> Pixel)
    ensures Recurse(t, pixels, pixelOf) == pixels + PreOrder(t, pixelOf)
    decreases t, 1
  {
    var withOwn := pixels + Own(t, pixelOf);
    match t.placement {
      case Some(p) => assert withOwn == pixels + [pixelOf(p)];
      case None => assert withOwn == pixels;
    }
    RecurseChildrenIsPreOrder(t, 0, withOwn, pixelOf);
  }

  lemma {:induction false} RecurseChildrenIsPreOrder(t: Part, i: nat, pixels: seq<Pixel>, pixelOf: Placement -> Pixel)
    requires i <= |t.children|
    ensures RecurseChildren(t, i, pixels, pixelOf) == pixels + PreOrderFrom(t, i, pixelOf)
    decreases t, 0, |t.children| - i
  {
    if i < |t.children| {
      var child := PreOrder(t.children[i], pixelOf);
      var rest := PreOrderFrom(t, i + 1, pixelOf);
      var after := Recurse(t.children[i], pixels, pixelOf);
      assert after == pixels + child by {
        RecurseIsPreOrder(t.children[i], pixels, pixelOf);
      }
      assert RecurseChildren(t, i + 1, after, pixelOf) == after + rest by {
        RecurseChildrenIsPreOrder(t, i + 1, after, pixelOf);
      }
      assert RecurseChildren(t, i, pixels, pixelOf) == RecurseChildren(t, i + 1, after, pixelOf);
      assert PreOrderFrom(t, i, pixelOf) == child + rest;
      assert (pixels + child) + rest == pixels + (child + rest);
    } else {
      assert PreOrderFrom(t, i, pixelOf) == [];
      assert pixels + [] == pixels;
    }
  }

  /** A rebuild clears first, so its result does not depend on the previous
      mask: any collider, including a fresh one, ends with the same pixels. */
  lemma RebuildForgetsPrevious(c: Collider, t: Part, pixelOf: Placement -> Pixel)
    ensures Rebuild(c, t, pixelOf) == Rebuild(NewCollider(), t, pixelOf)
  {
  }

  /** The mask holds one pixel per placed part. */
  lemma {:induction false} PreOrderLength(t: Part, pixelOf: Placement -> Pixel)
    ensures |PreOrder(t, pixelOf)| == CountPlaced(t)
    decreases t, 1
  {
    PreOrderFromLength(t, 0, pixelOf);
  }

  lemma {:induction false} PreOrderFromLength(t: Part, i: nat, pixelOf: Placement -> Pixel)
    requires i <= |t.children|
    ensures |PreOrderFrom(t, i, pixelOf)| == CountPlacedFrom(t, i)
    decreases t, 0, |t.children| - i
  {
    if i < |t.children| {
      PreOrderLength(t.children[i], pixelOf);
      PreOrderFromLength(t, i + 1, pixelOf);
    }
  }

  /** The children's masks split around child `i`: everything of children
      before `i`, then all of child `i`, then everything after it. */
  lemma {:induction false} PreOrderFromSplit(t: Part, i: nat, j: nat, pixelOf: Placement -> Pixel)
    requires i <= j < |t.children|
    ensures PreOrderFrom(t, i, pixelOf)
         == PreOrderBetween(t, i, j, pixelOf) + PreOrder(t.children[j], pixelOf) + PreOrderFrom(t, j + 1, pixelOf)
    decreases j - i
  {
    if i < j {
      PreOrderFromSplit(t, i + 1, j, pixelOf);
    }
  }

  /** The masks of children `i..j` of `t`, concatenated in order. */
  function PreOrderBetween(t: Part, i: nat, j: nat, pixelOf: Placement -> Pixel): seq<Pixel>
    requires i <= j <= |t.children|
    decreases j - i
  {
    if i == j then [] else PreOrder(t.children[i], pixelOf) + PreOrderBetween(t, i + 1, j, pixelOf)
  }

  /** Pre-order shape of the mask (the pixels `Rebuild` produces), for every
      child `j`: the part's own pixel (if it is placed) comes first, then the
      whole mask of each earlier child, then child `j`'s mask as one
      contiguous block, then the later children's. A part without a box
      contributes nothing itself but its children are still walked. */
  lemma MaskLayout(t: Part, j: nat, pixelOf: Placement -> Pixel)
    requires j < |t.children|
    ensures PreOrder(t, pixelOf)
         == Own(t, pixelOf) + PreOrderBetween(t, 0, j, pixelOf)
            + PreOrder(t.children[j], pixelOf) + PreOrderFrom(t, j + 1, pixelOf)
  {
    PreOrderFromSplit(t, 0, j, pixelOf);
  }

  /** A placed part's own pixel is the first pixel of its mask. */
  lemma MaskStartsWithOwnPixel(t: Part, p: Placement, pixelOf: Placement -> Pixel)
    requires t.placement == Some(p)
    ensures |PreOrder(t, pixelOf)| > 0 && PreOrder(t, pixelOf)[0] == pixelOf(p)
  {
    assert PreOrder(t, pixelOf) == [pixelOf(p)] + PreOrderFrom(t, 0, pixelOf);
  }

  // ---------------------------------------------------------------------
  // `update_pixel_colliders`: every entity carrying a collider gets its mask
  // rebuilt from its own hierarchy.

  /** An entity that carries a collider, with its hierarchy. */
  datatype Holder = Holder(root: Part, collider: Collider)

  method UpdatePixelColliders(world: seq<Holder>, rotate: (Quat, Vec3) -> Vec3) returns (r: seq<Holder>)
    ensures |r| == |world|
    ensures forall k :: 0 <= k < |world| ==> r[k].root == world[k].root
    ensures forall k :: 0 <= k < |world| ==> r[k].collider.pixels == PreOrder(world[k].root, PixelOf(rotate))
  {
    r := world;
    var i := 0;
    while i < |world|
      invariant 0 <= i <= |world| && |r| == |world|
      invariant forall k :: 0 <= k < |world| ==> r[k].root == world[k].root
      invariant forall k :: 0 <= k < i ==> r[k].collider.pixels == PreOrder(world[k].root, PixelOf(rotate))
    {
      r := r[i := Holder(r[i].root, Rebuild(r[i].collider, r[i].root, PixelOf(rotate)))];
      i := i + 1;
    }
  }
}
