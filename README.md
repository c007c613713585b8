# lambcha challenge lifecycle, modelled in Dafny

lambcha issues image challenges from two AWS Lambda handlers.

- The issuing handler (`generate_code/main.go`) does the following:
  - draws a random 6-character code from a 62-character ASCII alphabet;
  - renders the code into a 200×100 RGBA picture: white background, random coloured squares on a 10-pixel grid, then the text;
  - stores the picture in an object store under a fresh id;
  - stores a record `{PK, code, imageUrl, TTL}` under the same id, with the code upper-cased;
  - answers with the id and the picture's URL.
- The validating handler (`validate_code/main.go`) looks the id up. It answers 404 with an empty body when no record exists. Otherwise it compares the stored code with the submitted one exactly, and answers 400 `INCORRECT` or 200 `OK`.

The model has the following modules:

| module | file | what it holds |
|---|---|---|
| `Wrappers` | `wrappers.dfy` | `Option`, and `Outcome`, where `Fatal` stands for `log.Fatalf` |
| `Ascii` | `ascii.dfy` | the ASCII classes and `strings.ToUpper` on ASCII |
| `CodeGen` | `codegen.dfy` | `GenerateCode` as a loop over a fresh `char` array; each `rand.Intn(62)` is one entry of a pre-drawn sequence |
| `Geometry` | `geometry.dfy` | `image.Point`, `image.Rectangle`, `Intersect`, and `image.Rect` with its corner swapping |
| `Canvas` | `canvas.dfy` | `image.RGBA` as a class over an `array2` of pixels; `draw.Draw` with a uniform source and `draw.Src` (`DrawUniform`) |
| `NoiseLayer` | `noise.dfy` | `Colorify` with its nested grid loops. The function `Noise` lists the squares it paints, in order. The function `Paint` gives the colour a pixel ends up with (the last square that covers it wins). |
| `Render` | `render.dfy` | `GenerateImage`: allocate, fill white, `Colorify`, then the text anchor |
| `Issuer` | `issuer.dfy` | the issuing `Handler` over an abstract store |
| `Verifier` | `verifier.dfy` | the validating `Handler`'s verdict |

The following are parameters:
- the ksuid id, as an `Option`, where `None` is a ksuid failure;
- the clock (`now`);
- the random draws;
- the bucket domain;
- the success of each external call (font load, PNG encoding, `PutObject`, `PutItem`).

The store is modelled as two maps:
- the object store maps each key to the text drawn on its picture;
- the table maps each PK to its record.

### Where the code departs from the written design

The model follows the code in each of these places:

- The validating handler never reads the `TTL` attribute (`validate_code/main.go:67-81`). A record that has expired but is still in the table is judged on its code, not reported as not found (`Verifier.VerdictIgnoresTtl`).
- The submitted code is not case-folded before the comparison (`validate_code/main.go:71`). `GenerateImage` gets the raw code (`generate_code/main.go:55`). The font has only capital glyphs, so a lower-case letter is drawn as a capital in another style. The record holds the upper-cased code (`generate_code/main.go:53,83`). So a submission that types those letters in lower case is refused, and the raw code is accepted only when it has no lowercase letter (`Verifier.IssuedRawAccepted`, `Verifier.GeneratedRawAccepted`).
- A missing record gives status 404 with an empty body, not a "NOT FOUND" message (`validate_code/main.go:59-65`).
- Store failures, PNG failures and font failures stop the process (`log.Fatalf`); no 5xx reply is formed. The picture is stored before the record. So a failed `PutItem` leaves a picture without a record (`Issuer.Issue`, `Verifier.IssueThenValidate`); issuing is not atomic.
- The font is loaded on each call, after the noise is painted (`generate_code/main.go:126-131`).

## Model

| member | source | states |
|---|---|---|
| Ascii.UpperChar | generate_code/main.go:53 | a lowercase ASCII letter becomes the capital of the same letter, every other character is unchanged, and the result is never lowercase |
| Ascii.ToUpper | generate_code/main.go:53 | upper-casing keeps the length and upper-cases each character on its own |
| Ascii.UpperHasNoLower | generate_code/main.go:53 | the upper-cased code holds no lowercase letter, and alphanumeric characters stay alphanumeric |
| Ascii.UpperFixpoint | generate_code/main.go:53 | upper-casing leaves a string unchanged exactly when it holds no lowercase letter |
| Ascii.UpperIdempotent | generate_code/main.go:53 | upper-casing twice is upper-casing once |
| CodeGen.CharsetLayout | generate_code/main.go:112 | the alphabet has 62 characters: a-z at 0-25, A-Z at 26-51, 1-9 at 52-60, 0 at 61 |
| CodeGen.CharsetIsAlnum | generate_code/main.go:112 | a character is in the alphabet exactly when it is an ASCII letter or digit |
| CodeGen.CharsetDistinct | generate_code/main.go:112 | no character occurs twice in the alphabet |
| CodeGen.LowerAt | generate_code/main.go:112 | an alphabet position holds a lowercase letter exactly when it is below 26 |
| CodeGen.CodeNoLower | generate_code/main.go:114-116 | a generated code has no lowercase letter exactly when every draw is 26 or more |
| CodeGen.CodeOf | generate_code/main.go:114-116 | the code of n draws has n characters, each from the alphabet |
| CodeGen.CodeOfInjective | generate_code/main.go:114-116 | different draws give different codes |
| CodeGen.CodeOfSurjective | generate_code/main.go:114-116 | every alphanumeric string is the code of some draws |
| CodeGen.GenerateCode | generate_code/main.go:111-119 | the filled buffer is the code the draws select, of the requested length, all alphanumeric |
| Geometry.Rect.Intersect | generate_code/main.go:153 | the clipped rectangle is empty and zero, or its corner lies in both rectangles |
| Geometry.IntersectContains | generate_code/main.go:153 | a point is in the clipped rectangle exactly when it is in both |
| Geometry.EmptyHasNoPoint | generate_code/main.go:153 | a rectangle is empty exactly when no point is in it |
| Geometry.MakeRect | generate_code/main.go:153 | `image.Rect` orders its corners |
| Geometry.MakeRectContains | generate_code/main.go:153 | `image.Rect` holds the points between its corners, whichever order they were given in |
| Canvas.Image.constructor | generate_code/main.go:122 | a new width×height image whose pixels are all zero |
| Canvas.Image.DrawUniform | generate_code/main.go:124 | pixels of the image inside the rectangle take the colour; every other pixel is unchanged |
| NoiseLayer.GridMembership | generate_code/main.go:149-150 | the visited points are exactly those inside the image with both coordinates multiples of 10 |
| NoiseLayer.GridOrdered | generate_code/main.go:149-150 | the visit order is x-major, then y, strictly increasing |
| NoiseLayer.GridSize | generate_code/main.go:149-150 | ceil(W/10)·ceil(H/10) points are visited, 200 for 200×100 |
| NoiseLayer.NoiseShape | generate_code/main.go:151-153 | the i-th square sits at the i-th grid point, has side in [0, 25), alpha 255, and R, G, B equal to the draws, each in [0, 254] |
| NoiseLayer.CoverReach | generate_code/main.go:152-153 | a square covers only pixels less than 24 to the right of and below its corner |
| NoiseLayer.ZeroSideCoversNothing | generate_code/main.go:152-153 | a side-0 square covers no pixel |
| NoiseLayer.PaintLastCover | generate_code/main.go:149-155 | a pixel ends with the colour of the last square, in visit order, that covers it |
| NoiseLayer.PaintUncovered | generate_code/main.go:149-155 | a pixel that no square covers keeps its previous colour |
| NoiseLayer.PaintSkips | generate_code/main.go:149-155 | a square that does not cover a pixel can be removed without changing that pixel |
| NoiseLayer.ZeroSideInvisible | generate_code/main.go:152-153 | a side-0 square changes nothing |
| NoiseLayer.PaintOpaque | generate_code/main.go:151 | opaque squares over an opaque pixel leave it opaque |
| NoiseLayer.PaintSnoc | generate_code/main.go:153 | one more square wins where it covers and changes nothing elsewhere |
| NoiseLayer.PaintAppend | generate_code/main.go:149-155 | painting two runs of squares is painting the second run over the result of the first |
| NoiseLayer.NoiseSquaresAppend | generate_code/main.go:149-152 | the squares of consecutive runs of grid points take consecutive draws |
| NoiseLayer.PaintColumn | generate_code/main.go:150-154 | after the inner loop, every pixel is its column's squares painted over its previous colour |
| NoiseLayer.Colorify | generate_code/main.go:148-156 | after the nested loops, every pixel is the noise squares painted in visit order over its previous colour, clipped to the image |
| Render.TextAnchor | generate_code/main.go:141 | the text starts a tenth of the width across and three times a quarter of the height down, inside the canvas |
| Render.DefaultAnchor | generate_code/main.go:141 | on 200×100 the text starts at (20, 75) |
| Render.GenerateImage | generate_code/main.go:121-145 | fails exactly when the font is missing; otherwise the canvas is width×height, before the text is drawn every pixel is the noise painted over white, and the caption is the code at the anchor |
| Render.CanvasOpaque | generate_code/main.go:124-126 | before the text is drawn, every pixel of the painted canvas is opaque |
| Render.UncoveredStaysWhite | generate_code/main.go:124-126 | before the text is drawn, a pixel no square covers stays white |
| Issuer.ImageUrl | generate_code/main.go:77 | the URL is the domain, a slash, then the id |
| Issuer.KeyFromUrl | generate_code/main.go:77 | a key read from a URL rebuilds that URL |
| Issuer.UrlRoundTrip | generate_code/main.go:77 | the id is read back from its URL |
| Issuer.ImageUrlInjective | generate_code/main.go:77 | two ids never share a URL |
| Issuer.NewChallenge | generate_code/main.go:82-85 | the record's PK is the id; its code is the upper-cased code, of the same length and with no lowercase letter; its URL leads back to the PK; its TTL is the issue time plus 60 |
| Issuer.Issue | generate_code/main.go:44-109 | each failing step ends with a fatal error: nothing stored before `PutObject`, the picture alone after it; on success the raw code's picture and the upper-cased record are stored under the same id, and the reply holds the id and the URL |
| Verifier.Lookup | validate_code/main.go:48-59 | the item is present exactly when the id is a key of the table, and it is that key's record |
| Verifier.Verdict | validate_code/main.go:59-81 | 404 with an empty body exactly when there is no item; 400 "INCORRECT" exactly when the stored code differs; 200 "OK" exactly when it is equal; nothing else |
| Verifier.Validate | validate_code/main.go:59-81 | the three verdicts in terms of the table and the request |
| Verifier.VerdictIgnoresTtl | validate_code/main.go:67-71 | TTL and URL do not affect the verdict; an expired record is still judged on its code |
| Verifier.IssuedUpperAccepted | validate_code/main.go:71-80 | the upper-cased code of a just-issued challenge is accepted |
| Verifier.IssuedRawAccepted | validate_code/main.go:71-80 | the raw generated code is accepted exactly when it holds no lowercase letter, and refused otherwise |
| Verifier.GeneratedRawAccepted | validate_code/main.go:71-80 | the raw generated code is accepted exactly when no draw picked a lowercase letter |
| Verifier.IssueThenValidate | validate_code/main.go:59-80 | after an issue run that stores the picture, submitting its text upper-cased is accepted when `PutItem` succeeded; when `PutItem` failed the picture stays without a record and a new id gives 404 |
| Verifier.IssueKeepsOthers | validate_code/main.go:48-53 | storing one record does not change the verdict for any other id |

## Left out

- The AWS clients (`PutObject`, `PutItem`, `GetItem`) are left out. The store is two maps, and each call's failure is a flag.
- The object store keeps only the text drawn on each picture. It does not keep the PNG bytes.
- Request and reply JSON, the Lambda response type, and the unreachable 500 reply for a failed `json.Marshal` are left out. The verdict's message is kept as a value.
- PNG encoding is not modelled; only its failure flag is.
- Font loading, parsing and glyph rasterisation are left out. The text is recorded as a caption (the raw code and its dot), drawn after the noise. The dot is kept in whole pixels, without its 26.6 fixed-point form.
- `ksuid.NewRandom`, `time.Now`, `rand.Seed` and `rand.Intn` are parameters. The draws are assumed to lie in the ranges `rand.Intn` promises.
- A record whose `code` attribute is missing or not a string, and which would make the validating handler panic, is not modelled. A record here always has a code.
- A request body that does not decode is not modelled. A failing `GetItem` is not modelled either; both end the process in the source.
- `ListFiles`, `init` and `main` are left out. So are the copies of `GenerateCode`, `GenerateImage` and `Colorify` in `validate_code/main.go`, which match the issuer's copies and are modelled once.
- `Canvas.Image` holds its pixels in an `array2` indexed `[x, y]`. It does not model the flat `Pix` slice with its stride.
- Ascii.ToUpper: only ASCII is modelled. The alphabet is ASCII, so this covers every code the issuer generates.
- Issuer.NewChallenge, Verifier.IssuedUpperAccepted, Verifier.IssuedRawAccepted: they require an alphanumeric code, since non-ASCII upper-casing is not modelled. Every generated code is alphanumeric (`CodeGen.GenerateCode`).
- Issuer.NewChallenge: the TTL is an unbounded integer. The int64 overflow of `Unix() + 60` is not modelled.
- Render.GenerateImage: canvas sides are natural numbers. Negative sizes, which `image.Rect` would swap, are not modelled.
- NoiseLayer.PaintColumn: the inner loop of `Colorify` is a separate method here. The pixels it paints and the order in which it paints them are the same as in the source.
