/** The picture of a challenge (GenerateImage): a white canvas, the noise
    squares painted over it, and the code written on top at a fixed anchor.
    Glyph rasterisation is not modelled; the caption records what is written
    and where the font drawer's dot starts, and it is laid down after the
    noise, so no noise square covers the text. */
module Render {
  import opened Geometry
  import opened Canvas
  import opened NoiseLayer

  /** The text handed to the font drawer and its starting dot. */
  datatype Caption = Caption(text: string, dot: Point)

  /** What GenerateImage gives back: the painted canvas with its caption, or
      the error of a font that could not be loaded. */
  datatype Rendered = Rendered(canvas: Image, caption: Caption) | FontMissing

  /** The font drawer's dot: a tenth of the width across and three quarters
      of the height (rounded down to a multiple of 3) down, in whole pixels. */
  function TextAnchor(w: nat, h: nat): (dot: Point)
    ensures 0 <= dot.x && 10 * dot.x <= w < 10 * dot.x + 10
    ensures 0 <= dot.y && dot.y % 3 == 0 && 4 * (dot.y / 3) <= h < 4 * (dot.y / 3) + 4
    ensures w > 0 ==> dot.x < w
    ensures h > 0 ==> dot.y < h
  {
    Point(w / 10, h / 4 * 3)
  }

  /** The issuer's 200-by-100 canvas puts the text at (20, 75). */
  lemma DefaultAnchor()
    ensures TextAnchor(200, 100) == Point(20, 75)
  {
  }

  /** GenerateImage: a fresh width-by-height canvas, filled white, then
      Colorify; the font is loaded only afterwards, and a font that cannot be
      loaded makes the whole call fail. On success the canvas, before the
      text is drawn on it, has every pixel the noise painted over white, and
      the caption is the code at TextAnchor. */
  method GenerateImage(code: string, width: nat, height: nat, draws: seq<NoiseDraw>, fontLoads: bool)
      returns (result: Rendered)
    requires |draws| == |Grid(width, height)| && ValidDraws(draws)
    ensures fontLoads <==> result.Rendered?
    ensures result.Rendered? ==>
              && result.canvas.Valid() && fresh(result.canvas.pix)
              && result.canvas.width == width && result.canvas.height == height
              && result.caption == Caption(code, TextAnchor(width, height))
              && forall x, y :: 0 <= x < width && 0 <= y < height ==>
                   result.canvas.pix[x, y] == Paint(Noise(width, height, draws), Point(x, y), White)
  {
    var img := new Image(width, height);
    img.DrawUniform(img.Bounds(), White);
    Colorify(img, draws);
    if !fontLoads {
      return FontMissing;
    }
    result := Rendered(img, Caption(code, TextAnchor(img.width, img.height)));
  }

  /** Every pixel of the finished canvas is opaque: the background is white
      and every noise square has alpha 255. */
  lemma CanvasOpaque(w: nat, h: nat, draws: seq<NoiseDraw>, p: Point)
    requires |draws| == |Grid(w, h)| && ValidDraws(draws)
    ensures Paint(Noise(w, h, draws), p, White).a == 255
  {
    var squares := Noise(w, h, draws);
    forall j | 0 <= j < |squares| ensures squares[j].color.a == 255 {
      NoiseShape(w, h, draws, j);
    }
    PaintOpaque(squares, p, White);
  }

  /** Before the text is drawn, a pixel that no noise square covers stays
      white. */
  lemma UncoveredStaysWhite(w: nat, h: nat, draws: seq<NoiseDraw>, p: Point)
    requires |draws| == |Grid(w, h)|
    requires forall j :: 0 <= j < |Noise(w, h, draws)| ==> !Noise(w, h, draws)[j].Covers(p)
    ensures Paint(Noise(w, h, draws), p, White) == White
  {
    PaintUncovered(Noise(w, h, draws), p, White);
  }
}
