/** Face location and the passport crop of faceDetection.ts. The platform's
    FaceDetector is foreign: what it reports is an input. Coordinates are exact
    reals; the canvas draw itself is not modelled, only the source rectangle
    handed to it and the size of the output canvas. */
module FaceCrop {
  import opened Common

  datatype FaceBox = FaceBox(x: real, y: real, width: real, height: real)

  /** What asking the platform for a face can give: no FaceDetector in the
      window, an exception from detect(), or the list of faces it found. */
  datatype Detector = Unsupported | Threw | Detected(faces: seq<FaceBox>)

  /** A guess used when no detector can be asked: a box 0.4 of the width and
      0.35 of the height, centred horizontally, 0.1 of the height from the top. */
  function FallbackFaceDetection(width: nat, height: nat): (f: FaceBox)
    ensures f.width == 0.4 * width as real && f.height == 0.35 * height as real
    ensures f.x + f.width / 2.0 == width as real / 2.0
    ensures f.y == 0.1 * height as real
    ensures 0.0 <= f.x && f.x + f.width <= width as real
    ensures 0.0 <= f.y && f.y + f.height <= height as real
  {
    var faceWidth := width as real * 0.4;
    var faceHeight := height as real * 0.35;
    FaceBox((width as real - faceWidth) / 2.0, height as real * 0.1, faceWidth, faceHeight)
  }

  /** detectFace: only a detector that ran and found nothing gives no face;
      an absent or failing detector falls back to the guessed box. */
  function DetectFace(d: Detector, width: nat, height: nat): (r: Option<FaceBox>)
    ensures r.None? <==> d.Detected? && |d.faces| == 0
    ensures d.Detected? && |d.faces| > 0 ==> r == Some(d.faces[0])
    ensures !d.Detected? ==> r == Some(FallbackFaceDetection(width, height))
  {
    match d
    case Unsupported => Some(FallbackFaceDetection(width, height))
    case Threw => Some(FallbackFaceDetection(width, height))
    case Detected(faces) => if |faces| > 0 then Some(faces[0]) else None
  }

  // ---- the crop window

  /** The face takes half the crop's height. */
  const FaceHeightRatio: real := 0.5
  /** Margin above the face, as a fraction of the crop's height. */
  const FaceTopMargin: real := 0.15

  /** The crop before it is moved into the image. */
  function InitialCrop(face: FaceBox, ratio: real): Rect
  {
    var cropHeight := face.height / FaceHeightRatio;
    var cropWidth := cropHeight * ratio;
    var faceCenterX := face.x + face.width / 2.0;
    var faceCenterY := face.y + face.height / 2.0;
    var targetFaceCenterY := cropHeight * (FaceTopMargin + FaceHeightRatio / 2.0);
    Rect(faceCenterX - cropWidth / 2.0, faceCenterY - targetFaceCenterY, cropWidth, cropHeight)
  }

  /** How the unclamped crop frames the face: twice the face's height, the
      requested aspect ratio, centred on the face horizontally, and the face's
      centre 0.4 of the crop's height below its top. */
  lemma InitialCropFramesFace(face: FaceBox, ratio: real)
    ensures var c := InitialCrop(face, ratio);
      c.height == 2.0 * face.height &&
      c.width == c.height * ratio &&
      c.x + c.width / 2.0 == face.x + face.width / 2.0 &&
      (face.y + face.height / 2.0) - c.y == 0.4 * c.height
  {
  }

  /** cropToPassport's window: move the crop into the image, then shrink it to
      the image's width, then to its height, keeping the aspect ratio. */
  function CropWindow(face: FaceBox, imgWidth: real, imgHeight: real, ratio: real): Rect
    requires ratio > 0.0
  {
    var c := InitialCrop(face, ratio);
    var cropX := MaxR(0.0, MinR(c.x, imgWidth - c.width));
    var cropY := MaxR(0.0, MinR(c.y, imgHeight - c.height));
    var tooWide := c.width > imgWidth;
    var width1 := if tooWide then imgWidth else c.width;
    var height1 := if tooWide then imgWidth / ratio else c.height;
    var x1 := if tooWide then 0.0 else cropX;
    var tooTall := height1 > imgHeight;
    var height2 := if tooTall then imgHeight else height1;
    var width2 := if tooTall then imgHeight * ratio else width1;
    var y2 := if tooTall then 0.0 else cropY;
    var x2 := if tooTall then MaxR(0.0, (imgWidth - width2) / 2.0) else x1;
    Rect(x2, y2, width2, height2)
  }

  /** With a positive image, face height and ratio the window is a non-empty
      rectangle inside the image. */
  lemma CropInsideImage(face: FaceBox, imgWidth: real, imgHeight: real, ratio: real)
    requires imgWidth > 0.0 && imgHeight > 0.0 && face.height > 0.0 && ratio > 0.0
    ensures var r := CropWindow(face, imgWidth, imgHeight, ratio);
      0.0 <= r.x && r.x + r.width <= imgWidth &&
      0.0 <= r.y && r.y + r.height <= imgHeight &&
      r.width > 0.0 && r.height > 0.0
  {
    var c := InitialCrop(face, ratio);
    if c.width > imgWidth {
      ShrinkToWidth(c.width, c.height, imgWidth, ratio);
      if imgWidth / ratio > imgHeight {
        ShrinkToHeight(imgWidth / ratio, imgWidth, imgHeight, ratio);
      }
    } else if c.height > imgHeight {
      ShrinkToHeight(c.height, imgWidth, imgHeight, ratio);
    }
  }

  /** Shrinking a crop wider than the image to the image's width leaves it
      shorter than before. */
  lemma ShrinkToWidth(cropWidth: real, cropHeight: real, imgWidth: real, ratio: real)
    requires ratio > 0.0 && cropWidth == cropHeight * ratio && cropWidth > imgWidth > 0.0
    ensures 0.0 < imgWidth / ratio < cropHeight
  {
    assert imgWidth / ratio * ratio == imgWidth;
    if imgWidth / ratio >= cropHeight {
      MulLeR(cropHeight, imgWidth / ratio, ratio);
      assert false;
    }
  }

  /** A crop taller than the image, shrunk to its height, fits its width. */
  lemma ShrinkToHeight(height1: real, imgWidth: real, imgHeight: real, ratio: real)
    requires ratio > 0.0 && imgHeight > 0.0 && height1 > imgHeight && height1 * ratio <= imgWidth
    ensures 0.0 < imgHeight * ratio < imgWidth
  {
    MulLtR(imgHeight, height1, ratio);
  }

  /** Whichever shrink runs, the window's width is its height times the ratio. */
  lemma CropKeepsAspect(face: FaceBox, imgWidth: real, imgHeight: real, ratio: real)
    requires ratio > 0.0
    ensures var r := CropWindow(face, imgWidth, imgHeight, ratio);
      r.width == r.height * ratio
  {
    var c := InitialCrop(face, ratio);
    if c.width > imgWidth {
      assert imgWidth / ratio * ratio == imgWidth;
    }
  }

  /** A crop that fits keeps its size and is only moved: to the nearest
      position inside the image, and not at all when it is already inside. */
  lemma CropThatFitsIsTranslated(face: FaceBox, imgWidth: real, imgHeight: real, ratio: real)
    requires ratio > 0.0
    requires var c := InitialCrop(face, ratio); c.width <= imgWidth && c.height <= imgHeight
    ensures var c := InitialCrop(face, ratio);
      var r := CropWindow(face, imgWidth, imgHeight, ratio);
      r.width == c.width && r.height == c.height &&
      (0.0 <= c.x <= imgWidth - c.width ==> r.x == c.x) &&
      (c.x < 0.0 ==> r.x == 0.0) &&
      (c.x > imgWidth - c.width ==> r.x == imgWidth - c.width) &&
      (0.0 <= c.y <= imgHeight - c.height ==> r.y == c.y) &&
      (c.y < 0.0 ==> r.y == 0.0) &&
      (c.y > imgHeight - c.height ==> r.y == imgHeight - c.height)
  {
  }

  // ---- the output canvas

  const OutputWidth: nat := 600
  const DefaultAspectRatio: real := 3.5 / 4.5

  /** The height a canvas has when no valid height is set. */
  const DefaultCanvasHeight: nat := 150

  /** canvas.height = 600 / ratio. The setter converts the number to an
      unsigned 32-bit integer (integer part, modulo 2^32); a result above
      2^31 - 1 is rejected and the canvas keeps its default height. */
  function OutputHeight(ratio: real): (h: nat)
    requires ratio > 0.0
    ensures h <= 0x7FFF_FFFF
    ensures 600.0 / ratio < 2147483648.0 ==> h as real <= 600.0 / ratio < h as real + 1.0
    ensures 2147483648.0 <= 600.0 / ratio < 4294967296.0 ==> h == DefaultCanvasHeight
  {
    var v := (OutputWidth as real / ratio).Floor % 0x1_0000_0000;
    if v > 0x7FFF_FFFF then DefaultCanvasHeight else v
  }

  /** For the default passport ratio the canvas is 600 x 771, not the 600 x
      771.43 the formula names. */
  lemma DefaultOutputSize()
    ensures OutputHeight(DefaultAspectRatio) == 771
  {
    assert OutputWidth as real / DefaultAspectRatio == 5400.0 / 7.0;
  }

  /** The source rectangle and the output canvas size cropToPassport draws. */
  datatype Crop = Crop(source: Rect, outputWidth: nat, outputHeight: nat)

  const NoFaceMessage := "Could not detect face in the image"

  function CropToPassport(d: Detector, imgWidth: nat, imgHeight: nat, ratio: real): (r: Result<Crop>)
    requires ratio > 0.0
    ensures r.Err? <==> d.Detected? && |d.faces| == 0
    ensures r.Err? ==> r.msg == NoFaceMessage
    ensures r.Ok? ==> r.value.source == CropWindow(DetectFace(d, imgWidth, imgHeight).value, imgWidth as real, imgHeight as real, ratio)
    ensures r.Ok? ==> r.value.outputWidth == 600 && r.value.outputHeight == OutputHeight(ratio)
  {
    var face := DetectFace(d, imgWidth, imgHeight);
    if face.None? then Err(NoFaceMessage)
    else Ok(Crop(CropWindow(face.value, imgWidth as real, imgHeight as real, ratio), OutputWidth, OutputHeight(ratio)))
  }

  /** With no detector, a 1000 x 1000 image is cropped around the guessed box:
      700 high, 700 * 7/9 wide, centred, and moved down to the top edge. */
  lemma FallbackCropExample()
    ensures CropToPassport(Unsupported, 1000, 1000, DefaultAspectRatio) ==
      Ok(Crop(Rect(500.0 - 2450.0 / 9.0, 0.0, 4900.0 / 9.0, 700.0), 600, 771))
  {
    DefaultOutputSize();
    assert FallbackFaceDetection(1000, 1000) == FaceBox(300.0, 100.0, 400.0, 350.0);
  }
}
