/**
 * The camera and the integrator (camera.rs): image height, ray generation,
 * the recursive path colour and the row-major render loop.  Every random
 * draw is a parameter; the scene is any function answering a closest-hit
 * query over a window.
 */
module Cameras {
  import opened Options
  import opened Vectors
  import opened Points
  import opened Intervals
  import opened Rays
  import opened HitRecords
  import opened Materials
  import opened Hittables

  type U16 = n: int | 0 <= n < 0x1_0000
  type U8 = n: int | 0 <= n < 0x100

  const U16Max: U16 := 0xFFFF

  // ------------------------------------------------------------ image height

  /**
   * The saturating float-to-`u16` cast on a finite non-negative value: the
   * largest integer not above `x`, but never more than 65535.
   */
  function CastU16(x: real): (n: U16)
    requires 0.0 <= x
    ensures n as real <= x
    ensures n < U16Max ==> x < n as real + 1.0
  {
    if x >= U16Max as real then U16Max else x.Floor
  }

  /**
   * `get_image_height` as the code behaves: `width / aspect` as an IEEE
   * quotient.  An aspect of zero gives +infinity (saturating to 65535) for a
   * positive width and NaN for a zero width; NaN is not below 1 and casts
   * to 0.
   */
  function GetImageHeightAsWritten(w: U16, aspect: real): (h: U16)
    ensures aspect != 0.0 && (w as real) / aspect < 1.0 ==> h == 1
    ensures aspect != 0.0 && (w as real) / aspect >= 1.0 ==>
      1 <= h && h as real <= (w as real) / aspect && (h < U16Max ==> (w as real) / aspect < h as real + 1.0)
    ensures aspect == 0.0 && w > 0 ==> h == U16Max
  {
    if aspect == 0.0 then (if w == 0 then 0 else U16Max)
    else
      var hf := (w as real) / aspect;
      if hf < 1.0 then 1 else CastU16(hf)
  }

  /** A zero width with a zero aspect ratio yields a zero-row image. */
  lemma ImageHeightCanBeZero()
    ensures GetImageHeightAsWritten(0, 0.0) == 0
  {
  }

  /**
   * `get_image_height` with the intended guarantee: any quotient that is
   * not at least 1 (including NaN) gives 1.
   */
  function GetImageHeight(w: U16, aspect: real): (h: U16)
    ensures 1 <= h
    ensures !(w == 0 && aspect == 0.0) ==> h == GetImageHeightAsWritten(w, aspect)
  {
    if aspect == 0.0 then (if w == 0 then 1 else U16Max)
    else
      var hf := (w as real) / aspect;
      if hf < 1.0 then 1 else CastU16(hf)
  }

  // -------------------------------------------------------------- sampling

  /**
   * `sample_square`: an offset within the unit square centred on the pixel,
   * from two draws in [0, 1).
   */
  function SampleSquare(rx: real, ry: real): (o: Vec3)
    ensures Add(o, Vec3(0.5, 0.5, 0.0)) == Vec3(rx, ry, 0.0)
    ensures 0.0 <= rx < 1.0 ==> -0.5 <= o.x < 0.5
    ensures 0.0 <= ry < 1.0 ==> -0.5 <= o.y < 0.5
    ensures o.z == 0.0
  {
    Vec3(rx - 0.5, ry - 0.5, 0.0)
  }

  /** The random draws of one camera sample. */
  datatype SampleDraws = SampleDraws(rx: real, ry: real, disk: Vec3, bounce: nat -> Vec3)

  /** Every draw of the render, by pixel column, row and sample number. */
  type Draws = (nat, nat, nat) -> SampleDraws

  // ---------------------------------------------------------------- colour

  /** The scene: the closest hit of a ray over a window, if any. */
  type World = (Ray, Interval) -> Option<SurfaceHit>

  /** The window every world query uses: from 0.001 (no self-shadowing) upwards. */
  const QueryWindow: Interval := Interval(0.001, Infinity)

  const SkyBlue: Vec3 := Vec3(0.5, 0.7, 1.0)

  function ToColor(v: Vec3): Color
  {
    Color(v.x, v.y, v.z)
  }

  function ToVec(c: Color): Vec3
  {
    Vec3(c.r, c.g, c.b)
  }

  /**
   * The colour of a ray that escapes: black blended with sky blue by the
   * height of the unit direction, so only the blue term contributes.
   */
  function Sky(r: Ray, ops: VecOps): (c: Color)
    ensures var a := 0.5 * (ops.unit(r.direction).y + 1.0); c == Color(0.5 * a, 0.7 * a, a)
    ensures ops.unit(r.direction).y == 1.0 ==> c == ToColor(SkyBlue)
    ensures ops.unit(r.direction).y == -1.0 ==> c == Black
  {
    var unitDirection := ops.unit(r.direction);
    var a := 0.5 * (unitDirection.y + 1.0);
    ToColor(Add(Mul(Zero, 1.0 - a), Mul(SkyBlue, a)))
  }

  function Attenuate(c: Color, factor: Color): (res: Color)
    ensures res.r == c.r * factor.r && res.g == c.g * factor.g && res.b == c.b * factor.b
  {
    Color(c.r * factor.r, c.g * factor.g, c.b * factor.b)
  }

  /**
   * `ray_color`: at depth 0 the path is black; a hit scatters with the draw
   * of this level and multiplies the colour of the scattered ray by the
   * attenuation, or absorbs the light; a miss shows the sky.
   */
  function RayColor(world: World, ops: VecOps, dielectric: DielectricRule, r: Ray, depth: nat, bounce: nat -> Vec3): (c: Color)
    ensures depth == 0 ==> c == Black
    ensures depth > 0 && world(r, QueryWindow).None? ==> c == Sky(r, ops)
    ensures depth > 0 && world(r, QueryWindow).Some? ==>
      var h := world(r, QueryWindow).value;
      !MaterialScatter(h.mat, r, h.rec, bounce(depth), ops, dielectric).scattered ==> c == Black
    decreases depth
  {
    if depth == 0 then Black
    else
      match world(r, QueryWindow)
      case Some(h) =>
        var s := MaterialScatter(h.mat, r, h.rec, bounce(depth), ops, dielectric);
        if s.scattered then Attenuate(RayColor(world, ops, dielectric, s.ray, depth - 1, bounce), s.attenuation)
        else Black
      case None => Sky(r, ops)
  }

  /**
   * A scattering hit contributes the colour of the scattered ray, one level
   * shallower, filtered by the material's attenuation.
   */
  lemma RayColorScatters(world: World, ops: VecOps, dielectric: DielectricRule, r: Ray, depth: nat, bounce: nat -> Vec3)
    requires depth > 0 && world(r, QueryWindow).Some?
    requires var h := world(r, QueryWindow).value;
      MaterialScatter(h.mat, r, h.rec, bounce(depth), ops, dielectric).scattered
    ensures var h := world(r, QueryWindow).value;
      var s := MaterialScatter(h.mat, r, h.rec, bounce(depth), ops, dielectric);
      RayColor(world, ops, dielectric, r, depth, bounce)
        == Attenuate(RayColor(world, ops, dielectric, s.ray, depth - 1, bounce), s.attenuation)
  {
  }

  /**
   * The colour of a path depends only on the draws of levels 1..depth, so
   * a path takes at most `depth` bounces.
   */
  lemma {:induction false} RayColorUsesDepthDraws(world: World, ops: VecOps, dielectric: DielectricRule, r: Ray, depth: nat,
                                                  b1: nat -> Vec3, b2: nat -> Vec3)
    requires forall k :: 1 <= k <= depth ==> b1(k) == b2(k)
    ensures RayColor(world, ops, dielectric, r, depth, b1) == RayColor(world, ops, dielectric, r, depth, b2)
    decreases depth
  {
    if depth > 0 {
      match world(r, QueryWindow)
      case Some(h) =>
        var s := MaterialScatter(h.mat, r, h.rec, b1(depth), ops, dielectric);
        RayColorUsesDepthDraws(world, ops, dielectric, s.ray, depth - 1, b1, b2);
      case None =>
    }
  }

  predicate InUnitCube(c: Color)
  {
    0.0 <= c.r <= 1.0 && 0.0 <= c.g <= 1.0 && 0.0 <= c.b <= 1.0
  }

  /** Opaque surfaces reflect at most all the incoming light. */
  predicate AlbedoBounded(m: Material)
  {
    m.Dielectric? || InUnitCube(m.albedo)
  }

  /**
   * The conditions under which a path colour is a physical colour: unit
   * vectors have their y component in [-1, 1], and every attenuation of
   * the scene lies in the unit cube.
   */
  ghost predicate Bounded(world: World, ops: VecOps, dielectric: DielectricRule)
  {
    && (forall d :: -1.0 <= ops.unit(d).y <= 1.0)
    && (forall r, w :: world(r, w).Some? ==> AlbedoBounded(world(r, w).value.mat))
    && (forall ior, rIn, rec, v :: InUnitCube(dielectric(ior, rIn, rec, v).attenuation))
  }

  lemma UnitProduct(a: real, b: real)
    requires 0.0 <= a <= 1.0 && 0.0 <= b <= 1.0
    ensures 0.0 <= a * b <= 1.0
  {
    if b == 0.0 {
    } else {
      assert a * b <= b by {
        assert 0.0 <= (1.0 - a) * b;
      }
    }
  }

  lemma MulCancel(a: real, b: real, n: real)
    requires n != 0.0 && a * n == b * n
    ensures a == b
  {
    assert (a - b) * n == 0.0;
  }

  lemma AttenuateBounded(c: Color, factor: Color)
    requires InUnitCube(c) && InUnitCube(factor)
    ensures InUnitCube(Attenuate(c, factor))
  {
    UnitProduct(c.r, factor.r);
    UnitProduct(c.g, factor.g);
    UnitProduct(c.b, factor.b);
  }

  /** Under `Bounded`, every attenuation a hit produces lies in the unit cube. */
  lemma ScatterBounded(world: World, ops: VecOps, dielectric: DielectricRule, r: Ray, sample: Vec3)
    requires Bounded(world, ops, dielectric) && world(r, QueryWindow).Some?
    ensures var h := world(r, QueryWindow).value;
      InUnitCube(MaterialScatter(h.mat, r, h.rec, sample, ops, dielectric).attenuation)
  {
    var h := world(r, QueryWindow).value;
    assert AlbedoBounded(h.mat);
    if !h.mat.Dielectric? {
      OpaqueScatterFromHitPoint(h.mat, r, h.rec, sample, ops, dielectric);
    }
  }

  /** Under `Bounded`, every path colour lies in the unit cube. */
  lemma {:induction false} RayColorBounded(world: World, ops: VecOps, dielectric: DielectricRule, r: Ray, depth: nat, bounce: nat -> Vec3)
    requires Bounded(world, ops, dielectric)
    ensures InUnitCube(RayColor(world, ops, dielectric, r, depth, bounce))
    decreases depth
  {
    if depth > 0 {
      match world(r, QueryWindow)
      case Some(h) =>
        var s := MaterialScatter(h.mat, r, h.rec, bounce(depth), ops, dielectric);
        if s.scattered {
          RayColorBounded(world, ops, dielectric, s.ray, depth - 1, bounce);
          ScatterBounded(world, ops, dielectric, r, bounce(depth));
          AttenuateBounded(RayColor(world, ops, dielectric, s.ray, depth - 1, bounce), s.attenuation);
        }
      case None =>
        assert -1.0 <= ops.unit(r.direction).y <= 1.0;
    }
  }

  // ------------------------------------------------------- pixels and rows

  /** The sum of the first `n` colours of `f`, as a vector. */
  function ColorSum(f: nat -> Color, n: nat): Vec3
  {
    if n == 0 then Zero else Add(ColorSum(f, n - 1), ToVec(f(n - 1)))
  }

  /** The mean of the first `n` colours of `f`. */
  function Mean(f: nat -> Color, n: nat): Color
    requires n >= 1
  {
    ToColor(Div(ColorSum(f, n), n as real))
  }

  lemma {:induction false} ColorSumConstant(f: nat -> Color, n: nat, c: Color)
    requires forall s :: 0 <= s < n ==> f(s) == c
    ensures ColorSum(f, n) == Mul(ToVec(c), n as real)
    decreases n
  {
    if n > 0 {
      ColorSumConstant(f, n - 1, c);
      assert f(n - 1) == c;
      ScaleStep(ToVec(c), (n - 1) as real);
    }
  }

  /** Adding one more copy of `v` to `m` copies. */
  lemma ScaleStep(v: Vec3, m: real)
    ensures Add(Mul(v, m), v) == Mul(v, m + 1.0)
  {
    assert m * v.x + v.x == (m + 1.0) * v.x;
    assert m * v.y + v.y == (m + 1.0) * v.y;
    assert m * v.z + v.z == (m + 1.0) * v.z;
  }

  /** The mean of `n` copies of one colour is that colour. */
  lemma MeanOfConstant(f: nat -> Color, n: nat, c: Color)
    requires n >= 1
    requires forall s :: 0 <= s < n ==> f(s) == c
    ensures Mean(f, n) == c
  {
    ColorSumConstant(f, n, c);
    var v := Div(Mul(ToVec(c), n as real), n as real);
    MulCancel(v.x, c.r, n as real);
    MulCancel(v.y, c.g, n as real);
    MulCancel(v.z, c.b, n as real);
  }

  /** Row `j` of a `w`-wide image, left to right. */
  function Row(px: (nat, nat) -> Color, w: nat, j: nat): (row: seq<Color>)
    ensures |row| == w
    ensures forall i :: 0 <= i < w ==> row[i] == px(i, j)
  {
    seq(w, i requires 0 <= i < w => px(i, j))
  }

  /** The first `n` rows of a `w`-wide image, top to bottom. */
  function Raster(px: (nat, nat) -> Color, w: nat, n: nat): seq<Color>
  {
    if n == 0 then [] else Raster(px, w, n - 1) + Row(px, w, n - 1)
  }

  lemma MulSucc(a: nat, w: nat)
    ensures (a + 1) * w == a * w + w
  {
  }

  /** Extending a prefix of `row` by its next element. */
  lemma PrefixPush(done: seq<Color>, row: seq<Color>, i: nat)
    requires i < |row|
    ensures done + row[..i] + [row[i]] == done + row[..i + 1]
  {
    assert row[..i + 1] == row[..i] + [row[i]];
  }

  /** Appending row `j` to the first `j` rows gives the first `j + 1`. */
  lemma AppendRow(done: seq<Color>, px: (nat, nat) -> Color, w: nat, j: nat)
    ensures done + Raster(px, w, j) + Row(px, w, j) == done + Raster(px, w, j + 1)
  {
    assert Raster(px, w, j + 1) == Raster(px, w, j) + Row(px, w, j);
  }

  /** `n` rows of `w` pixels. */
  lemma {:induction false} RasterLength(px: (nat, nat) -> Color, w: nat, n: nat)
    ensures |Raster(px, w, n)| == n * w
    decreases n
  {
    if n > 0 {
      RasterLength(px, w, n - 1);
      MulSucc(n - 1, w);
    }
  }

  /** Row-major layout: pixel (i, j) sits at index `j * w + i`. */
  lemma {:induction false} RasterIndex(px: (nat, nat) -> Color, w: nat, n: nat, i: nat, j: nat)
    requires i < w && j < n
    ensures j * w + i < |Raster(px, w, n)|
    ensures Raster(px, w, n)[j * w + i] == px(i, j)
    decreases n
  {
    var prev := Raster(px, w, n - 1);
    RasterLength(px, w, n - 1);
    RasterLength(px, w, n);
    MulSucc(n - 1, w);
    if j < n - 1 {
      RasterIndex(px, w, n - 1, i, j);
    } else {
      assert j * w + i == |prev| + i;
    }
  }

  // ---------------------------------------------------------------- camera

  /**
   * The camera after initialisation: the geometry `initialize` derives is
   * given as constants, the image height is computed from the width and
   * the aspect ratio, and `pixels` grows as the image is rendered.
   */
  class Camera {
    const imageWidth: U16
    const imageHeight: U16
    const samplesPerPixel: U16
    const maxDepth: U8
    const center: Point3
    const pixel00: Point3
    const pixelDeltaU: Vec3
    const pixelDeltaV: Vec3
    const defocusAngle: real
    const defocusDiskU: Vec3
    const defocusDiskV: Vec3
    var pixels: seq<Color>

    constructor (aspectRatio: real, width: U16, depth: U8, spp: U16, center: Point3, pixel00: Point3,
                 deltaU: Vec3, deltaV: Vec3, defocusAngle: real, diskU: Vec3, diskV: Vec3)
      ensures imageWidth == width && imageHeight == GetImageHeight(width, aspectRatio)
      ensures samplesPerPixel == spp && maxDepth == depth
      ensures this.center == center && this.pixel00 == pixel00
      ensures pixelDeltaU == deltaU && pixelDeltaV == deltaV
      ensures this.defocusAngle == defocusAngle && defocusDiskU == diskU && defocusDiskV == diskV
      ensures pixels == []
    {
      imageWidth := width;
      imageHeight := GetImageHeight(width, aspectRatio);
      samplesPerPixel := spp;
      maxDepth := depth;
      this.center := center;
      this.pixel00 := pixel00;
      pixelDeltaU := deltaU;
      pixelDeltaV := deltaV;
      this.defocusAngle := defocusAngle;
      defocusDiskU := diskU;
      defocusDiskV := diskV;
      pixels := [];
    }

    /** A lens point: the centre moved within the plane of the two disk vectors. */
    function DefocusDiskSample(p: Vec3): (q: Point3)
      ensures AsVec(q) == Add(center.v, Add(Mul(defocusDiskU, p.x), Mul(defocusDiskV, p.y)))
      ensures p.x == 0.0 && p.y == 0.0 ==> q == center
    {
      Point3(Vec3(center.v.x + p.x * defocusDiskU.x + p.y * defocusDiskV.x,
                  center.v.y + p.x * defocusDiskU.y + p.y * defocusDiskV.y,
                  center.v.z + p.x * defocusDiskU.z + p.y * defocusDiskV.z))
    }

    /** The point of pixel (i, j) moved by the sub-pixel offset `o`. */
    function PixelSample(i: nat, j: nat, o: Vec3): Point3
    {
      Point3(Add(pixel00.v, Add(Mul(pixelDeltaU, i as real + o.x), Mul(pixelDeltaV, j as real + o.y))))
    }

    /**
     * `get_ray`: a ray from the camera centre (or from a lens point when
     * defocus blur is on) that passes through a jittered point of pixel
     * (i, j) at parameter 1.
     */
    function GetRay(i: nat, j: nat, rx: real, ry: real, disk: Vec3): (r: Ray)
      ensures defocusAngle <= 0.0 ==> r.origin == center
      ensures defocusAngle > 0.0 ==> r.origin == DefocusDiskSample(disk)
      ensures At(r, 1.0) == PixelSample(i, j, SampleSquare(rx, ry))
    {
      var offset := SampleSquare(rx, ry);
      var pixelSample := PixelSample(i, j, offset).v;
      var origin := if defocusAngle > 0.0 then DefocusDiskSample(disk) else center;
      Ray(origin, Sub(pixelSample, origin.v))
    }

    /** The colour one sample of pixel (i, j) contributes. */
    function SampleColor(world: World, ops: VecOps, dielectric: DielectricRule, draws: Draws, i: nat, j: nat, s: nat): Color
    {
      var d := draws(i, j, s);
      RayColor(world, ops, dielectric, GetRay(i, j, d.rx, d.ry, d.disk), maxDepth, d.bounce)
    }

    /** The samples of pixel (i, j), by sample number. */
    function Samples(world: World, ops: VecOps, dielectric: DielectricRule, draws: Draws, i: nat, j: nat): nat -> Color
    {
      (s: nat) => SampleColor(world, ops, dielectric, draws, i, j, s)
    }

    /** The colour of every pixel, by column and row. */
    function Pixels(world: World, ops: VecOps, dielectric: DielectricRule, draws: Draws): (nat, nat) -> Color
      requires samplesPerPixel >= 1
    {
      (i: nat, j: nat) => Mean(Samples(world, ops, dielectric, draws, i, j), samplesPerPixel)
    }

    /** The whole image, row-major. */
    function Image(world: World, ops: VecOps, dielectric: DielectricRule, draws: Draws): seq<Color>
      requires samplesPerPixel >= 1
    {
      Raster(Pixels(world, ops, dielectric, draws), imageWidth, imageHeight)
    }

    /** The inner sample loop of `render`: the mean colour of pixel (i, j). */
    method ShadePixel(world: World, ops: VecOps, dielectric: DielectricRule, draws: Draws, i: nat, j: nat) returns (c: Color)
      requires samplesPerPixel >= 1
      ensures c == Mean(Samples(world, ops, dielectric, draws, i, j), samplesPerPixel)
      ensures c == Pixels(world, ops, dielectric, draws)(i, j)
    {
      ghost var f := Samples(world, ops, dielectric, draws, i, j);
      var pixelColor := Zero;
      for s := 0 to samplesPerPixel
        invariant pixelColor == ColorSum(f, s)
      {
        var d := draws(i, j, s);
        var r := GetRay(i, j, d.rx, d.ry, d.disk);
        var pc := RayColor(world, ops, dielectric, r, maxDepth, d.bounce);
        assert pc == f(s);
        pixelColor := Add(pixelColor, Vec3(pc.r, pc.g, pc.b));
      }
      pixelColor := Div(pixelColor, samplesPerPixel as real);
      c := Color(pixelColor.x, pixelColor.y, pixelColor.z);
    }

    /** One row of `render`: the pixels of row `j`, left to right, appended to `pixels`. */
    method RenderRow(world: World, ops: VecOps, dielectric: DielectricRule, draws: Draws, j: nat)
      requires samplesPerPixel >= 1
      modifies this
      ensures pixels == old(pixels) + Row(Pixels(world, ops, dielectric, draws), imageWidth, j)
    {
      ghost var row := Row(Pixels(world, ops, dielectric, draws), imageWidth, j);
      for i := 0 to imageWidth
        invariant pixels == old(pixels) + row[..i]
      {
        var c := ShadePixel(world, ops, dielectric, draws, i, j);
        pixels := pixels + [c];
        PrefixPush(old(pixels), row, i);
      }
      assert row[..imageWidth] == row;
    }

    /**
     * `render`: every pixel, row by row and left to right within a row, is
     * the mean of its samples and is appended to `pixels`.
     */
    method Render(world: World, ops: VecOps, dielectric: DielectricRule, draws: Draws)
      requires samplesPerPixel >= 1
      modifies this
      ensures pixels == old(pixels) + Image(world, ops, dielectric, draws)
    {
      ghost var px := Pixels(world, ops, dielectric, draws);
      for j := 0 to imageHeight
        invariant pixels == old(pixels) + Raster(px, imageWidth, j)
      {
        RenderRow(world, ops, dielectric, draws, j);
        AppendRow(old(pixels), px, imageWidth, j);
      }
    }

    /** In the rendered image, pixel (i, j) sits at index `j * width + i`. */
    lemma ImageLayout(world: World, ops: VecOps, dielectric: DielectricRule, draws: Draws, i: nat, j: nat)
      requires samplesPerPixel >= 1
      requires i < imageWidth && j < imageHeight
      ensures |Image(world, ops, dielectric, draws)| == imageWidth * imageHeight
      ensures Image(world, ops, dielectric, draws)[j * imageWidth + i] == Mean(Samples(world, ops, dielectric, draws, i, j), samplesPerPixel)
    {
      RasterLength(Pixels(world, ops, dielectric, draws), imageWidth, imageHeight);
      RasterIndex(Pixels(world, ops, dielectric, draws), imageWidth, imageHeight, i, j);
    }
  }
}
