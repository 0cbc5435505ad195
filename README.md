# Passport photo pipeline, modelled in Dafny

A browser tool that prepares passport photos. The user uploads a portrait.
The tool can do three things to it:

- remove the background and lay the cutout on a solid colour;
- crop the photo around the detected face to the passport aspect ratio;
- tile copies of the photo onto a paper sheet, for an on-screen preview and for a 300-DPI download.

This project models the core of that pipeline. Each source file becomes one module:

- `hex_color.dfy` (`HexColor`): `hexToRgb`, the parser for the background colour string. Its partner is a hex writer, and a round-trip lemma connects the two.
- `segmentation.dfy` (`Segmentation`): the working-size cap, the check of the segmenter's result, and the loop that writes the mask into the alpha channel. The loop is a method over an `array<byte>` RGBA buffer.
- `compositor.dfy` (`Compositor`): `applyBackgroundColor`'s three in-place pixel passes. They are edge blend, colour-spill pull and fringe feather. Each pass is a method over the `array<byte>` buffer. The methods are proved against per-byte specification functions, and lemmas state what each pass and the whole compositor may change.
- `face_crop.dfy` (`FaceCrop`): `detectFace`, the fallback face box, and `cropToPassport`. The crop window and the output canvas size are computed over exact reals.
- `sheet_layout.dfy` (`SheetLayout`): one layout, parametrised by density. The export uses 118.11 px/cm, 300 px/inch and scale 1. The preview uses 37.8 px/cm, 96 px/inch and scale 0.3. The drawing loop is a method that yields the list of `drawImage` placements.
- `uploader.dfy` (`Uploader`): the state of `PhotoUploader`, as a class. It holds the 20-entry undo/redo history with its cursor, the photo shown, the selected colour and the cached cutout.
- `common.dfy` (`Common`): `Option`, `Result`, `Rect`, bytes, `Math.round` and arithmetic lemmas.

Modelling choices:

- JavaScript's `Math.round(x)` is `floor(x + 0.5)`.
- Stores into the `Uint8ClampedArray` clamp to 0..255.
- A typed-array write past the end of the buffer is ignored.
- Numbers are exact reals, not doubles.

## Behaviour worth knowing

- A pixel that no pass selects keeps its alpha, so the compositor's output need not be opaque (`Compositor.ClearPixelStaysClear`, `Compositor.CompositeAlpha`).
- The buffer the passes run on is read back after an opaque `fillRect` and a `drawImage` over it (backgroundRemoval.ts:121-135), so every alpha byte is 255. On such a buffer none of the three passes selects any pixel, and the composite equals its input (`Compositor.OpaqueSnapshotUnchanged`). The model keeps the passes as written and proves their properties for any buffer.
- `canvas.height = 600 / ratio` keeps the integer part of the quotient, so at the default ratio 3.5/4.5 the cropped photo is 600 × 771 (`FaceCrop.DefaultOutputSize`). The integer part is first reduced modulo 2^32. A quotient from 2^31 up to 2^32 is then rejected by the setter and leaves the default height 150; a larger one wraps modulo 2^32 first (`FaceCrop.OutputHeight`).
- Centimetres are converted with the constants 118.11 and 37.8 px/cm. For 2.54 cm both give exactly one inch after rounding (`SheetLayout.InchInCentimetres`).
- A very thin image can round to a zero side: 3000 × 1 becomes 1024 × 0 (`Segmentation.ThinImageCollapses`). `getImageData` then throws, so background removal fails even on a valid segmenter result (`Segmentation.RemoveBackground`).
- Every unit other than "cm" is read as inches (`SheetLayout.NonCmIsInch`).
- `hexToRgb` is case-insensitive digit by digit: "#aAbBcC" is (170, 187, 204) (`HexColor.MixedCase`, `HexColor.SameColourUpToCase`).

## Model

| member | source | states |
|---|---|---|
| HexColor.HexToRgb | backgroundRemoval.ts:231-242 | a string that is not an optional '#' followed by exactly six hex digits (either case) yields white |
| HexColor.HexRoundTrip | backgroundRemoval.ts:231-239 | every colour written as six hex digits, upper or lower case, with or without '#', parses back to the same three channels |
| HexColor.ParsePrint | backgroundRemoval.ts:231-239 | the channels read from any accepted string, whatever the case of each digit, print back as that string's six digits in lower case |
| HexColor.SameColourUpToCase | backgroundRemoval.ts:232 | two accepted strings give the same colour exactly when their digits agree up to case |
| HexColor.MixedCase | backgroundRemoval.ts:232-239 | the mixed-case "#aAbBcC" is accepted and gives (170, 187, 204), the colour of "aabbcc" |
| HexColor.HexLengths | backgroundRemoval.ts:232 | an accepted colour string has length 6, or length 7 starting with '#' |
| HexColor.ShortFormIsWhite | backgroundRemoval.ts:232-241 | the three-digit short forms "#FFF" and "#000" are not understood and give white |
| HexColor.Examples | backgroundRemoval.ts:231-242 | "#00FF00" and "00ff00" give pure green; "not-a-color" gives white |
| Segmentation.ResizeImageIfNeeded | backgroundRemoval.ts:9-32 | the working size is at most 1024 on each side; the image is scaled exactly when a side exceeds 1024, its longer side (the height on a tie) becomes 1024, and an unscaled image keeps its size |
| Segmentation.ResizeKeepsAspect | backgroundRemoval.ts:13-20 | the rounded short side is within half a pixel of its exact proportional value |
| Segmentation.ThinImageCollapses | backgroundRemoval.ts:13-31 | a 3000 × 1 image is resized to 1024 × 0; 1024 × 1024 is kept; 2048 × 2048 becomes 1024 × 1024 |
| Segmentation.CheckSegmentation | backgroundRemoval.ts:57-59 | the result is rejected with "Invalid segmentation result" exactly when it is missing, not an array, empty, or its first entry has no mask; otherwise the first mask is used |
| Segmentation.MaskAlpha | backgroundRemoval.ts:74-75 | a mask value ≤ 0 gives alpha 255, ≥ 1 gives 0, and in between the alpha is (1 - m) · 255 rounded half up |
| Segmentation.MaskAlphaAntitone | backgroundRemoval.ts:74 | a larger mask value never gives a more opaque pixel |
| Segmentation.MaskKeepsColour | backgroundRemoval.ts:73-76 | the mask loop leaves every red, green and blue byte as it was |
| Segmentation.MaskApplied | backgroundRemoval.ts:73-76 | the buffer the mask loop produces, of the same length: the alpha byte of each pixel the mask covers holds that mask value's alpha; its properties are stated by MaskKeepsColour and WriteMaskAlpha |
| Segmentation.WriteMaskAlpha | backgroundRemoval.ts:73-76 | after the loop, the alpha byte of pixel i holds the alpha of mask value i for every pixel the mask covers; all other bytes are unchanged, including when the mask is longer than the buffer |
| Segmentation.RemoveBackground | backgroundRemoval.ts:46-76 | an invalid segmenter result fails with its message; a valid one on a zero-area working size fails with the IndexSizeError of `getImageData`; both failures leave the buffer untouched, and failure happens exactly in these two cases; otherwise it reports the working size, whose four bytes per pixel are the buffer's non-zero length, and writes the first mask into the alpha channel |
| Compositor.Mix | backgroundRemoval.ts:168-170 | a rounded blend of a foreground and a background byte lies between the two, is the foreground at weight 1 and the background at weight 0 |
| Compositor.SoftEdgeBand | backgroundRemoval.ts:145 | pass 1 skips alpha/255 ≥ 0.98 or ≤ 0.02, so it acts exactly on alpha bytes 6..249 |
| Compositor.WindowSum | backgroundRemoval.ts:148-158 | the sum of the eight neighbours' alpha bytes lies between 0 and 8 · 255 |
| Compositor.EdgeWeight | backgroundRemoval.ts:160-165 | the smoothed alpha of pass 1 stays in [0, 1] |
| Compositor.NeighbourAlphaSum | backgroundRemoval.ts:148-158 | the neighbour loop counts 8 neighbours and sums their alpha/255, the centre excluded |
| Compositor.EdgeBlend | backgroundRemoval.ts:139-173 | the per-byte result of pass 1, of the same length as its input; EdgeBlendPass is proved to compute it and EdgeBlendChanges states what it changes |
| Compositor.EdgeBlendPass | backgroundRemoval.ts:139-173 | pass 1 turns the buffer into the edge-blend of the snapshot: every interior soft-edge pixel gets blended colour and alpha 255, every other byte is kept |
| Compositor.SpillBandRange | backgroundRemoval.ts:182 | pass 2 skips alpha/255 < 0.15 or > 0.92, so it acts on alpha bytes 39..234 |
| Compositor.HalfAlphaRange | backgroundRemoval.ts:193 | the grayish branch's alpha/255 < 0.5 means alpha byte ≤ 127 |
| Compositor.GreenishExact | backgroundRemoval.ts:190 | g > 1.1 r and g > 1.1 b hold exactly when 10 g > 11 r and 10 g > 11 b |
| Compositor.SpillPull | backgroundRemoval.ts:176-201 | the per-byte result of pass 2, of the same length as its input; SpillPass is proved to compute it and SpillPullChanges states what it changes |
| Compositor.SpillPass | backgroundRemoval.ts:176-201 | pass 2 turns the buffer into the spill-pull of the buffer pass 1 left: candidates two pixels from the border, judged on their current colour, have their colour bytes pulled 60% towards the background, and every other byte is kept |
| Compositor.FringeRange | backgroundRemoval.ts:210 | pass 3 acts on 0.01 < alpha/255 < 0.12, that is alpha bytes 3..30 |
| Compositor.Feather | backgroundRemoval.ts:204-219 | the per-byte result of pass 3, of the same length as its input; FeatherPass is proved to compute it and FeatherChanges states what it changes |
| Compositor.FeatherPass | backgroundRemoval.ts:204-219 | pass 3 turns the buffer into its feathered form: every fringe pixel, border included, is blended from the snapshot with weight 3 · alpha and made opaque; every other byte is kept |
| Compositor.ApplyBackgroundColor | backgroundRemoval.ts:119-219 | the buffer after the three passes is the composite of the snapshot on the parsed background colour |
| Compositor.Composite | backgroundRemoval.ts:119-219 | the three passes in order on a snapshot, of the same length; CompositeAlpha, CompositeKeepsUnselected and CompositeColourBetween state its alpha, its frame and its colour bounds |
| Compositor.EdgeBlendChanges | backgroundRemoval.ts:139-173 | pass 1 changes only interior pixels with snapshot alpha 6..249, makes them opaque, and moves each colour byte between the snapshot's byte and the background's |
| Compositor.SpillPullChanges | backgroundRemoval.ts:176-201 | pass 2 changes only colour bytes of pixels two from the border with snapshot alpha 39..234, and only towards the background |
| Compositor.FeatherChanges | backgroundRemoval.ts:204-219 | pass 3 changes only pixels with snapshot alpha 3..30, makes them opaque, and blends their snapshot colour with the background |
| Compositor.SpillWithinEdge | backgroundRemoval.ts:176-182 | every pixel pass 2 selects was already selected by pass 1 |
| Compositor.CompositeAlpha | backgroundRemoval.ts:139-219 | an output alpha byte is 255 exactly where pass 1 or pass 3 acted, and the snapshot's alpha elsewhere |
| Compositor.CompositeKeepsUnselected | backgroundRemoval.ts:139-219 | a pixel neither pass 1 nor pass 3 selects keeps all four bytes |
| Compositor.CompositeColourBetween | backgroundRemoval.ts:139-219 | every output colour byte lies between the snapshot's byte and the background's channel |
| Compositor.OpaqueSnapshotUnchanged | backgroundRemoval.ts:121-135 | on a snapshot whose alpha bytes are all 255, which is what an opaque fill followed by a draw produces, the composite equals the snapshot |
| Compositor.ClearPixelStaysClear | backgroundRemoval.ts:204-219 | a fully transparent pixel passes through all three passes unchanged, so the output need not be opaque |
| FaceCrop.FallbackFaceDetection | faceDetection.ts:44-60 | the guessed face is 0.4 of the width and 0.35 of the height, centred horizontally, 0.1 of the height from the top, and inside the image |
| FaceCrop.DetectFace | faceDetection.ts:16-41 | no face exactly when the detector ran and found none; the first face found is returned; a missing or failing detector gives the fallback box |
| FaceCrop.InitialCrop | faceDetection.ts:76-92 | the crop before it is moved into the image; InitialCropFramesFace states its size, aspect and position relative to the face |
| FaceCrop.InitialCropFramesFace | faceDetection.ts:76-92 | before clamping, the crop is twice the face's height, has the requested aspect ratio, is centred on the face horizontally, and has the face's centre 0.4 of its height below its top |
| FaceCrop.CropWindow | faceDetection.ts:94-113 | the clamp into the image and the two shrinks; CropInsideImage, CropKeepsAspect and CropThatFitsIsTranslated state the result |
| FaceCrop.CropInsideImage | faceDetection.ts:94-113 | for a positive image, face height and ratio, the final crop is a non-empty rectangle inside the image |
| FaceCrop.CropKeepsAspect | faceDetection.ts:98-113 | whichever shrink applies, the crop's width is its height times the ratio |
| FaceCrop.CropThatFitsIsTranslated | faceDetection.ts:94-96 | a crop that fits keeps its size and is moved to the nearest position inside the image, not at all if already inside |
| FaceCrop.OutputHeight | faceDetection.ts:117-121 | the canvas height is the integer part of 600 / ratio when that is below 2^31, and the default 150 when it is from 2^31 to 2^32; it never exceeds 2^31 - 1 |
| FaceCrop.DefaultOutputSize | faceDetection.ts:117-121 | at ratio 3.5/4.5 the output canvas is 771 pixels high |
| FaceCrop.CropToPassport | faceDetection.ts:63-134 | fails with "Could not detect face in the image" exactly when the detector found no face; otherwise it draws the crop window of the detected face onto a 600-wide canvas of the output height |
| FaceCrop.FallbackCropExample | faceDetection.ts:44-113 | without a detector, a 1000 × 1000 image is cropped to a centred 4900/9 × 700 window at the top edge, drawn at 600 × 771 |
| SheetLayout.UnitToPx | DownloadSection.tsx:17-22 | "cm" sizes are converted per centimetre and all other units per inch, rounded to the nearest pixel (within half a pixel) and never negative |
| SheetLayout.PlanGrid | DownloadSection.tsx:54-61 | columns, rows, capped count and the centred start of the grid on whole-pixel sizes and a scale; GridScaleFree and GridCentred state its counts and its margins |
| SheetLayout.GapPx | DownloadSection.tsx:45 | the 0.3 cm gap between copies, converted at the renderer's density and rounded to within half a pixel (PhotoPreview.tsx:45 applies the same conversion before scaling) |
| SheetLayout.PlanSheet | DownloadSection.tsx:39-61 | a renderer's sheet: sizes converted at its density, then PlanGrid; A4Export, A4Preview and PlannedCopiesOnPaper state its values and that every copy lies on the paper |
| SheetLayout.GridScaleFree | PhotoPreview.tsx:36-57 | the preview's scale factor cancels: columns are (paper + gap) div (photo + gap) in whole pixels, likewise rows, and the copy count is the request capped at cols · rows |
| SheetLayout.ScaledFloor | PhotoPreview.tsx:55-56 | floor((P s + G s) / (C s + G s)) is (P + G) div (C + G) for any positive scale |
| SheetLayout.ExtentFits | DownloadSection.tsx:54-59 | the grid is as large as fits: its cells and gaps span at most the paper, and one more column would not fit |
| SheetLayout.GridCentred | DownloadSection.tsx:54-61 | the grid is centred on the paper with equal, non-negative margins on each axis |
| SheetLayout.AxisCentred | PhotoPreview.tsx:55-63 | along one axis, the scaled cells start at a non-negative offset and leave equal margins before and after |
| SheetLayout.CellInsidePaper | DownloadSection.tsx:63-67 | every cell of a centred grid lies on the paper |
| SheetLayout.CellRect | DownloadSection.tsx:66-67 | the rectangle of the k-th cell in row-major order; CellInsidePaper and CellsDisjoint state where it lies |
| SheetLayout.CellsDisjoint | DownloadSection.tsx:66-67 | two distinct cells never overlap |
| SheetLayout.CenterCrop | DownloadSection.tsx:69-80 | the part of the photo drawn into a cell; CenterCropFits states its position, size and aspect |
| SheetLayout.CenterCropFits | DownloadSection.tsx:69-80 | the part of the photo drawn into a cell is inside the photo, centred, spans its full width or full height, and has the cell's aspect ratio |
| SheetLayout.PlacePhotos | DownloadSection.tsx:63-90 | the loops place exactly maxPhotos copies; the k-th goes to cell k in row-major order and shows the centre crop |
| SheetLayout.PlannedCopiesOnPaper | DownloadSection.tsx:39-90 | every copy drawn on a planned sheet, at any density and for any sizes, lies on the paper |
| SheetLayout.A4Export | DownloadSection.tsx:39-56 | A4 with 3.5 × 4.5 cm photos at 300 DPI is a 3508 × 2480 sheet of 413 × 531 cells with a 35 px gap and 7 × 4 places; requests of 30 or 37 copies are cut to 28, 21 are drawn in full |
| SheetLayout.A4Preview | PhotoPreview.tsx:36-57 | the preview of that sheet has 1123 × 794 paper, 132 × 170 cells, an 11 px gap and the same 7 × 4 grid |
| SheetLayout.InchInCentimetres | DownloadSection.tsx:17-18 | 2.54 cm converts to 300 px at export density and 96 px at preview density, the same as one inch |
| SheetLayout.NonCmIsInch | DownloadSection.tsx:20-22 | a size in any unit other than "cm", "mm" included, converts as inches |
| Uploader.AddedValid | PhotoUploader.tsx:72-89 | adding keeps at most 20 entries with the cursor on an entry, makes the photo the last entry, and puts the cursor on it |
| Uploader.Added | PhotoUploader.tsx:72-89 | the history after addToHistory; AddedValid, AddedDropsRedoTail and UndoAfterAdd state it |
| Uploader.Recorded | PhotoUploader.tsx:91-96 | the history after handlePhotoChange: the photo is added unless it is empty or already at the cursor; RecordedIdempotent states it |
| Uploader.CanUndo | PhotoUploader.tsx:98 | for a valid history, undo is enabled exactly when there is an entry at the cursor and one before it |
| Uploader.CanRedo | PhotoUploader.tsx:99 | for a valid history, redo is enabled exactly when there is an entry after the cursor |
| Uploader.Undone | PhotoUploader.tsx:101-109 | the history after an enabled undo; UndoRedoInverse and UndoAfterAdd state it |
| Uploader.Redone | PhotoUploader.tsx:111-119 | the history after an enabled redo; UndoRedoInverse states it |
| Uploader.AddedDropsRedoTail | PhotoUploader.tsx:73-86 | adding discards every entry after the cursor; the oldest entry is shifted out exactly when the cursor was on the twentieth entry, and the cursor then stays where it was |
| Uploader.UndoRedoInverse | PhotoUploader.tsx:98-119 | undo and redo only move the cursor, keep the history valid, and each reverses the other when it is enabled |
| Uploader.UndoAfterAdd | PhotoUploader.tsx:72-109 | undo right after a photo is recorded shows the photo that was current before, whether or not the oldest entry was shifted out |
| Uploader.RecordedIdempotent | PhotoUploader.tsx:91-96 | recording the same photo twice records it once |
| Uploader.PhotoUploader.constructor | PhotoUploader.tsx:62-69 | empty history with the cursor at -1, no cached cutout, white as the selected colour, selector hidden |
| Uploader.PhotoUploader.AddToHistory | PhotoUploader.tsx:72-89 | the history becomes the added history, which stays valid; nothing else changes |
| Uploader.PhotoUploader.HandlePhotoChange | PhotoUploader.tsx:91-96 | the photo is shown; it is recorded only when non-empty and different from the entry at the cursor |
| Uploader.PhotoUploader.HandleUndo | PhotoUploader.tsx:101-109 | when undo is enabled, the cursor moves back and the entry there is shown; otherwise nothing changes |
| Uploader.PhotoUploader.HandleRedo | PhotoUploader.tsx:111-119 | when redo is enabled, the cursor moves on and the entry there is shown; otherwise nothing changes |
| Uploader.PhotoUploader.HandleFile | PhotoUploader.tsx:120-131 | a non-image file changes nothing; an image is recorded and shown, and the cached cutout and the colour selector are dropped |
| Uploader.PhotoUploader.ClearPhoto | PhotoUploader.tsx:154-161 | nothing is shown, no cutout is kept, and the history is empty with the cursor at -1 |
| Uploader.PhotoUploader.HandleRemoveBackground | PhotoUploader.tsx:244-267 | with a photo shown, a successful removal caches the cutout, and a successful composite on the selected colour is recorded and shown; a failing step stops the rest and keeps what was done before it |
| Uploader.PhotoUploader.HandleColorSelect | PhotoUploader.tsx:269-302 | with a photo shown, the colour is remembered; a cached cutout is reused without segmenting, otherwise the photo is segmented once and the cutout cached; a successful composite on the new colour is recorded and shown; the colour selector is shown only after segmenting and a successful composite, and otherwise keeps its state |
| Uploader.PhotoUploader.HandleAutoCrop | PhotoUploader.tsx:304-321 | with a photo shown, a successful passport crop is recorded and shown; a failure changes nothing |

## Left out

- Segmentation itself is a foreign model. It is not modelled. This covers the model download, the `webgpu` device and the JPEG re-encoding at quality 0.8 before inference. What the segmenter returns is an input.
- Canvas decoding and encoding are not modelled: `drawImage` scaling, `getImageData`, `putImageData`, `toBlob` and `toDataURL`. Neither are the white fill and the cell borders of the sheet. Buffers and placements stand for the pixels drawn.
- The passport crop and the sheet drawing are modelled as rectangles and the list of placements. The resampled pixels are not modelled.
- Compositor.EdgeWeight: `Math.pow(blend, 0.85)` is a parameter `gamma`, assumed only to map [0, 1] into [0, 1]. The model does not fix the exponent, because real powers are not part of Dafny's arithmetic.
- HexColor.HexToRgb: its own contract states only the fallback to white. The channel values read from an accepted string are stated by `HexColor.HexRoundTrip` (print then parse) and `HexColor.ParsePrint` (parse then print, any mix of cases).
- All arithmetic is exact. IEEE double rounding is not modelled, such as the product 29.7 · 118.11 or the 0.3 preview scale. The canvas sizes of the preview, which truncate fractional widths, are not modelled either.
- SheetLayout.PlanGrid requires a positive cell-plus-gap size. A zero divisor, which gives `Infinity` columns in JavaScript, is not modelled. Every catalogue size is positive.
- The uploader handlers are modelled as atomic steps that see the current state. Interleaved asynchronous handlers are not modelled. Neither are callbacks that capture a stale `canUndo`, `currentPhoto` or `selectedBgColor` from an earlier render.
- Removal, compositing and cropping inside the uploader are function parameters that may fail. Their link to the modules above is by name only.
- The uploader's toasts, busy flags, re-render calls and the AI-banner state are not modelled.
- Photo enhancement, clothing, payments, session ids and usage limits in `PhotoUploader.tsx` are outside this model. They call remote services.
- FileReader is not modelled. `HandleFile` receives the data URL the reader produced, together with whether the file's type is an image.
