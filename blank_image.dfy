/**
 * createBlankPNG: a 100 x 100 RGBA image painted white pixel by pixel,
 * in the column-major order of its nested loops.
 */
module BlankImage {
  /** A color as Go's image/color knows it: 16-bit gray, or 8-bit RGBA. */
  datatype Color = Gray16(y: nat) | Rgba(r: nat, g: nat, b: nat, a: nat)

  /** A pixel as image.RGBA stores it: four 8-bit channels. */
  datatype Pixel = Pixel(r: nat, g: nat, b: nat, a: nat)

  predicate IsPixel(p: Pixel)
  {
    p.r < 256 && p.g < 256 && p.b < 256 && p.a < 256
  }

  /** color.White, the opaque 16-bit gray of full intensity. */
  const White: Color := Gray16(0xFFFF)

  /** A fresh image.RGBA is all zero bytes, transparent black. */
  const Transparent: Pixel := Pixel(0, 0, 0, 0)

  /** The width and height createBlankPNG asks for, image.Rect(0, 0, 100, 100). */
  const Side: nat := 100

  /**
   * color.RGBAModel: a color.RGBA is returned unchanged (its channels are
   * bytes); any other color gives its 16-bit channels shifted right by 8,
   * and a gray's channels are its level three times, fully opaque.
   */
  function ToPixel(c: Color): (p: Pixel)
    ensures c.Rgba? && c.r < 256 && c.g < 256 && c.b < 256 && c.a < 256 ==> p == Pixel(c.r, c.g, c.b, c.a)
    ensures c.Gray16? && c.y < 0x1_0000 ==> IsPixel(p) && p.a == 255 && p.r == p.g == p.b == c.y / 256
  {
    match c
    case Gray16(y) => Pixel(y / 256, y / 256, y / 256, 0xFFFF / 256)
    case Rgba(r, g, b, a) => Pixel(r % 256, g % 256, b % 256, a % 256)
  }

  /** What color.White becomes in an RGBA image: every channel at 255. */
  lemma WhitePixel()
    ensures ToPixel(White) == Pixel(255, 255, 255, 255)
  {
  }

  /** image.RGBA over the rectangle from (0, 0) to (width, height). */
  class RgbaImage {
    const width: nat
    const height: nat
    const pix: array2<Pixel>

    ghost predicate Valid()
      reads this
    {
      pix.Length0 == width && pix.Length1 == height
    }

    /** image.NewRGBA: every pixel transparent black. */
    constructor (width: nat, height: nat)
      ensures Valid() && this.width == width && this.height == height
      ensures fresh(pix)
      ensures forall x, y :: 0 <= x < width && 0 <= y < height ==> pix[x, y] == Transparent
    {
      this.width := width;
      this.height := height;
      pix := new Pixel[width, height]((x: nat, y: nat) => Transparent);
    }

    predicate InBounds(x: int, y: int)
      reads this
    {
      0 <= x < width && 0 <= y < height
    }

    /** RGBAAt: the pixel at (x, y), transparent black outside the rectangle. */
    function At(x: int, y: int): (p: Pixel)
      requires Valid()
      reads this, pix
      ensures !InBounds(x, y) ==> p == Transparent
    {
      if InBounds(x, y) then pix[x, y] else Transparent
    }

    /** Set: the pixel at (x, y) becomes c in RGBA; a point outside the rectangle is ignored. */
    method Set(x: int, y: int, c: Color)
      requires Valid()
      modifies pix
      ensures forall i, j :: 0 <= i < width && 0 <= j < height ==>
        pix[i, j] == if i == x && j == y then ToPixel(c) else old(pix[i, j])
    {
      if InBounds(x, y) {
        pix[x, y] := ToPixel(c);
      }
    }
  }

  /** The blank image of createBlankPNG: 100 x 100, and white at every pixel. */
  method CreateBlankImage() returns (img: RgbaImage)
    ensures fresh(img) && fresh(img.pix) && img.Valid()
    ensures img.width == Side && img.height == Side
    ensures forall x, y :: 0 <= x < Side && 0 <= y < Side ==> img.At(x, y) == Pixel(255, 255, 255, 255)
  {
    img := new RgbaImage(Side, Side);
    WhitePixel();
    for x := 0 to Side
      invariant fresh(img.pix)
      invariant forall i, j :: 0 <= i < x && 0 <= j < Side ==> img.pix[i, j] == Pixel(255, 255, 255, 255)
    {
      for y := 0 to Side
        invariant fresh(img.pix)
        invariant forall i, j :: 0 <= i < x && 0 <= j < Side ==> img.pix[i, j] == Pixel(255, 255, 255, 255)
        invariant forall j :: 0 <= j < y ==> img.pix[x, j] == Pixel(255, 255, 255, 255)
      {
        img.Set(x, y, White);
      }
    }
  }
}
