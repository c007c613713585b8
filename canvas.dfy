/** The RGBA raster (image.RGBA) and the one drawing operation the core uses:
    draw.Draw with a uniform source and the Src operator. */
module Canvas {
  import opened Geometry

  type Byte = b: int | 0 <= b < 256

  datatype Rgba = Rgba(r: Byte, g: Byte, b: Byte, a: Byte)

  /** color.White */
  const White := Rgba(255, 255, 255, 255)
  /** The zero value of a fresh image.RGBA pixel. */
  const Transparent := Rgba(0, 0, 0, 0)

  /** An image whose bounds are (0, 0)-(width, height); pix[x, y] is the
      pixel at column x and row y. */
  class Image {
    const width: nat
    const height: nat
    const pix: array2<Rgba>

    ghost predicate Valid() {
      pix.Length0 == width && pix.Length1 == height
    }

    function Bounds(): Rect
    {
      Rect(Point(0, 0), Point(width, height))
    }

    /** image.NewRGBA(image.Rect(0, 0, w, h)): every pixel zero. */
    constructor (w: nat, h: nat)
      ensures Valid() && width == w && height == h && fresh(pix)
      ensures forall x, y :: 0 <= x < w && 0 <= y < h ==> pix[x, y] == Transparent
    {
      width, height := w, h;
      pix := new Rgba[w, h]((x, y) => Transparent);
    }

    /** draw.Draw(img, r, image.NewUniform(c), _, draw.Src): r is clipped to
        the bounds and every pixel of the clipped rectangle becomes c; no
        other pixel changes. */
    method DrawUniform(r: Rect, c: Rgba)
      requires Valid()
      modifies pix
      ensures forall x, y :: 0 <= x < width && 0 <= y < height ==>
                pix[x, y] == if r.Contains(Point(x, y)) then c else old(pix[x, y])
    {
      var clip := r.Intersect(Bounds());
      if clip.IsEmpty() {
        return;
      }
      assert clip.Contains(clip.min);
      var y := clip.min.y;
      while y < clip.max.y
        invariant clip.min.y <= y <= clip.max.y
        invariant forall px, py :: 0 <= px < width && 0 <= py < height ==>
                    pix[px, py] == if clip.Contains(Point(px, py)) && py < y then c else old(pix[px, py])
      {
        var x := clip.min.x;
        while x < clip.max.x
          invariant clip.min.x <= x <= clip.max.x
          invariant forall px, py :: 0 <= px < width && 0 <= py < height ==>
                      pix[px, py] == if clip.Contains(Point(px, py)) && (py < y || (py == y && px < x))
                                     then c else old(pix[px, py])
        {
          assert clip.Contains(Point(x, y));
          pix[x, y] := c;
          x := x + 1;
        }
        y := y + 1;
      }
    }
  }
}
