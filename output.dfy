/**
 * Turning linear colours into displayed bytes (main.rs): gamma 2 encoding,
 * clamping to the intensity range and scaling to a byte, and the mapping of
 * a pixel's position in the buffer to its place on the window.
 */
module Output {
  import opened Vectors
  import opened Points
  import opened Intervals
  import opened Hittables
  import opened Cameras

  /** The intensity range a component is clamped to before scaling. */
  const Intensity: Interval := Interval(0.0, 0.999)

  /** Gamma 2 encoding; negative components become 0. */
  function LinearToGamma(l: real, sqrt: real -> real): (g: real)
    ensures l < 0.0 ==> g == 0.0
    ensures NonNegativeRoots(sqrt) ==> 0.0 <= g
    ensures 0.0 <= l && IsRootOf(sqrt, l) ==> g * g == l
  {
    if l < 0.0 then 0.0 else sqrt(l)
  }

  /**
   * `(256 * clamp(g)) as u8`: the floor of 256 times the clamped component;
   * it never leaves the byte range because the clamp stops at 0.999.
   */
  function ToByte(g: real): (b: U8)
    ensures b as real <= 256.0 * Clamp(Intensity, g) < b as real + 1.0
    ensures g <= 0.0 ==> b == 0
    ensures g >= 0.999 ==> b == 255
  {
    ClampProperties(Intensity, g);
    (256.0 * Clamp(Intensity, g)).Floor
  }

  /** The byte a linear component is written as; negative components are written as 0. */
  function Quantize(l: real, sqrt: real -> real): (q: U8)
    ensures l < 0.0 ==> q == 0
    ensures q as real <= 256.0 * Clamp(Intensity, LinearToGamma(l, sqrt)) < q as real + 1.0
  {
    ToByte(LinearToGamma(l, sqrt))
  }

  datatype Rgb = Rgb(r: U8, g: U8, b: U8)

  /** The byte triple `write_color` writes for a pixel. */
  function WriteColor(c: Color, sqrt: real -> real): (out: Rgb)
    ensures out.r == Quantize(c.r, sqrt) && out.g == Quantize(c.g, sqrt) && out.b == Quantize(c.b, sqrt)
  {
    Rgb(Quantize(c.r, sqrt), Quantize(c.g, sqrt), Quantize(c.b, sqrt))
  }

  /** A larger component never gives a smaller byte. */
  lemma ToByteMonotone(g1: real, g2: real)
    requires g1 <= g2
    ensures ToByte(g1) <= ToByte(g2)
  {
    ClampMonotone(Intensity, g1, g2);
  }

  /** Exact square roots preserve order. */
  lemma RootMonotone(l1: real, l2: real, sqrt: real -> real)
    requires 0.0 <= l1 <= l2
    requires IsRootOf(sqrt, l1) && IsRootOf(sqrt, l2)
    ensures sqrt(l1) <= sqrt(l2)
  {
  }

  /** With exact square roots, quantisation is monotone in the linear component. */
  lemma QuantizeMonotone(l1: real, l2: real, sqrt: real -> real)
    requires l1 <= l2
    requires NonNegativeRoots(sqrt)
    requires 0.0 <= l1 ==> IsRootOf(sqrt, l1)
    requires 0.0 <= l2 ==> IsRootOf(sqrt, l2)
    ensures Quantize(l1, sqrt) <= Quantize(l2, sqrt)
  {
    if 0.0 <= l1 {
      RootMonotone(l1, l2, sqrt);
    }
    ToByteMonotone(LinearToGamma(l1, sqrt), LinearToGamma(l2, sqrt));
  }

  /** Full white (with an exact root of 1) is written as 255. */
  lemma WhiteIsFullByte(sqrt: real -> real)
    requires IsRootOf(sqrt, 1.0)
    ensures Quantize(1.0, sqrt) == 255
  {
    var s := sqrt(1.0);
    assert s * s == 1.0;
    if s < 1.0 {
      SquareBelowOne(s);
      assert false;
    }
  }

  lemma SquareBelowOne(s: real)
    requires 0.0 <= s < 1.0
    ensures s * s < 1.0
  {
    assert s * s <= s by {
      assert (1.0 - s) * s >= 0.0;
    }
  }

  /** Black (with an exact root of 0) is written as three zero bytes. */
  lemma BlackIsZeroBytes(sqrt: real -> real)
    requires IsRootOf(sqrt, 0.0)
    ensures WriteColor(Black, sqrt) == Rgb(0, 0, 0)
  {
    SquarePositive(sqrt(0.0));
  }

  /**
   * The display loop's placement of the `i`-th buffer entry on a window
   * `width` pixels wide: its row is `i / width` and its column `i % width`.
   * The index is cast to `i32`, so it is below 2^31.
   */
  function DisplayPosition(i: nat, width: U16): (pos: (nat, nat))
    requires i < 0x8000_0000 && width > 0
    ensures pos.0 * width + pos.1 == i && pos.1 < width
  {
    (i / width, i % width)
  }

  /** The display mapping inverts the row-major layout of the rendered image. */
  lemma DisplayInvertsLayout(i: nat, j: nat, width: U16)
    requires 0 < width && i < width && j * width + i < 0x8000_0000
    ensures DisplayPosition(j * width + i, width) == (j, i)
  {
    var pos := DisplayPosition(j * width + i, width);
    UniqueDivision(pos.0, pos.1, j, i, width);
  }

  /** Quotient and remainder are unique. */
  lemma UniqueDivision(q1: nat, r1: nat, q2: nat, r2: nat, w: nat)
    requires r1 < w && r2 < w && q1 * w + r1 == q2 * w + r2
    ensures q1 == q2 && r1 == r2
  {
    if q1 < q2 {
      MulGap(q1, q2, w);
    } else if q2 < q1 {
      MulGap(q2, q1, w);
    }
  }

  /** Consecutive multiples of `w` are at least `w` apart. */
  lemma {:induction false} MulGap(a: nat, b: nat, w: nat)
    requires a < b
    ensures a * w + w <= b * w
    decreases b - a
  {
    MulSucc(b - 1, w);
    if a < b - 1 {
      MulGap(a, b - 1, w);
    }
  }
}
