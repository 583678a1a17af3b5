# stan_meme_creator, modelled in Dafny

stan_meme_creator puts a user's picture into a meme template. A template is an RGBA
image, or an animated GIF, with a "slot": the pixels whose alpha is exactly 0. The
compositor works in four steps:

1. It finds the slot's bounding box.
2. It resizes the user image to the box. It stretches the image, or, when asked,
   keeps the image's aspect ratio and centres it on a transparent canvas.
3. It pastes the resized image at the box's top-left corner on a transparent
   canvas the size of the template.
4. It lays the template over the canvas, using the template's own alpha as the
   mask.

A GIF template is handled frame by frame and saved with `loop=0` and the template's
frame duration (100 when the template declares none). A separate catalog matcher
picks a meme image URL whose comma-separated tags share the most words with a
text prompt.

The project models four source files:

- `core/image_processor.py` and `utils/image_utils.py` hold the current pipeline:
  - a bulk slot finder;
  - aspect-preserving fitting;
  - a `ValueError` when there is no slot.
- `utils.py` holds the older pipeline:
  - a pixel-by-pixel scan with different edge behaviour;
  - `None` instead of an exception;
  - always stretching.
- `utils/meme_utils.py` holds the tag matcher.

Modules:

- `Wrappers`: `Option` and `Result`.
- `Text`: the Python string operations the matcher and the GIF test use:
  - `str.isspace` as Python defines it;
  - ASCII `lower`;
  - `split()` and `split(',')`;
  - `strip()`;
  - `endswith`.
- `Raster`: the imaging calls:
  - RGBA pixels and images;
  - `Image.new`;
  - a rectangular `paste`;
  - an alpha-masked `paste`.

  `Canvas` is a class over a two-dimensional array whose paste methods update the
  pixels in place. `resize` is a parameter of type `Resampler`: any function that
  returns an image of the requested size. `Resize` wraps it with PIL's size test:
  a zero width or height raises `ValueError`, unless it is the image's own size.
  That error is one of the pipeline's modelled failures. Blending at a partial alpha is a
  parameter of type `Blend`.
- `Compose`: the shared steps of every compositor:
  - the canvas/paste/masked-paste sequence (`ComposeFrame`);
  - the frame loop (`ComposeAnimation`);
  - the GIF path test.
- `ImageUtils`: `find_transparent_area` and `resize_image_to_fit_area`.
- `ImageProcessor`: `ImageProcessor.process_image` and its two helpers.
- `LegacyUtils`: the older module-level functions of `utils.py`, and how they
  compare with the current pipeline.
- `MemeUtils`: `MemeGenerator` and `find_relevant_image`.

Each method that changes state or loops is proved equal to a specification
function. The properties of the source are then proved about those functions.

The behaviour here follows the code where it departs from what the slot tuple
(left, top, right, bottom, width, height) documented at
`utils/image_utils.py:13` suggests:

- The static compositor pastes the user image, sized to `right - left` by
  `bottom - top`, at `(left, top)`. The detected box's last column and last row
  are therefore never covered.
- The older finder returns `left` as the fourth element.

## Model

| member | source | states |
|---|---|---|
| ImageUtils.FindTransparentArea | stan_meme_creator/utils/image_utils.py:5-35 | None exactly when no pixel has alpha 0; otherwise the box is the bounding box of those pixels: inside the image, enclosing every one of them, each edge touching one, width and height are right-left and bottom-top |
| ImageUtils.HitsInsideBox | stan_meme_creator/utils/image_utils.py:30-33 | every column and row that holds a transparent pixel lies within the bounding box |
| ImageUtils.BoundingBoxUnique | stan_meme_creator/utils/image_utils.py:30-35 | two bounding boxes of the same transparent pixels are equal, so the finder's contract fixes its answer |
| ImageUtils.OnlyZeroAlphaMatters | stan_meme_creator/utils/image_utils.py:25-28 | templates that are transparent at the same pixels get the same area whatever their other alpha values |
| ImageUtils.RectangleSlot | stan_meme_creator/utils/image_utils.py:30-35 | a slot that is exactly the rectangle [l,r]x[t,b] yields (l, t, r, b, r-l, b-t) |
| ImageUtils.SinglePixelSlot | stan_meme_creator/utils/image_utils.py:27-35 | a single transparent pixel yields a zero-size area, not None |
| ImageUtils.TargetSize | stan_meme_creator/utils/image_utils.py:56-62 | the scaled size fits the slot and equals it along at least one side |
| ImageUtils.FallbackFits | stan_meme_creator/utils/image_utils.py:60-62 | when the width-fixed height overflows, the image height is positive and the height-fixed width fits the slot |
| ImageUtils.TargetSizeKeepsAspect | stan_meme_creator/utils/image_utils.py:57-62 | the scaled size keeps the image's aspect ratio up to the floor of one division |
| ImageUtils.FitPlacementCentred | stan_meme_creator/utils/image_utils.py:64-67 | the scaled image lies inside the slot canvas, centred: the slack after it equals the slack before it or exceeds it by one |
| ImageUtils.WideImageExample | stan_meme_creator/utils/image_utils.py:55-67 | a 300x100 image in a 100x100 slot becomes 100x33 placed at (0, 33) |
| ImageUtils.FittedImageShape | stan_meme_creator/utils/image_utils.py:55-70 | the result has the slot's size; with the aspect flag, the pixels inside the placed rectangle come from the scaled image and all others are transparent; ZeroDivisionError exactly on a zero-width image with the aspect flag, and the `resize` ValueError exactly when the size resized to (the slot's when stretching, the scaled one otherwise) is refused |
| ImageUtils.NarrowSlotRefused | stan_meme_creator/utils/image_utils.py:70 | stretching to a slot of width 0 raises unless the user image already has exactly that size |
| ImageUtils.FlatImageExample | stan_meme_creator/utils/image_utils.py:55-64 | a 1000x1 image in a 100x5 slot with the aspect flag scales to 100x0 and the `resize` raises |
| ImageUtils.ResizeImageToFitArea | stan_meme_creator/utils/image_utils.py:37-70 | the method, which builds a canvas and pastes, computes FittedImage |
| Raster.Blank | stan_meme_creator/core/image_processor.py:53 | a new RGBA image has the requested size and every pixel transparent black |
| Raster.Pasted | stan_meme_creator/core/image_processor.py:54 | a paste keeps the canvas size; pixels under the pasted rectangle come from the source at the offset, all others are unchanged |
| Raster.Resize | stan_meme_creator/utils/image_utils.py:64-70 | `resize` raises exactly when a requested side is 0 and the size differs from the image's own; otherwise the result has the requested size |
| Raster.Overlaid | stan_meme_creator/core/image_processor.py:55 | a masked paste keeps the canvas size; inside the layer, alpha 0 keeps the canvas pixel, alpha 255 takes the layer pixel, and other alphas blend |
| Raster.Canvas.constructor | stan_meme_creator/core/image_processor.py:53 | a fresh canvas holds the blank image |
| Raster.Canvas.Paste | stan_meme_creator/core/image_processor.py:54 | updating the array in place leaves the canvas holding Pasted of its old contents |
| Raster.Canvas.PasteMasked | stan_meme_creator/core/image_processor.py:55 | updating the array in place leaves the canvas holding Overlaid of its old contents |
| Raster.Canvas.Snapshot | stan_meme_creator/core/image_processor.py:57 | the image read off the array is the canvas contents |
| Compose.IsGifPathSuffix | stan_meme_creator/core/image_processor.py:32 | the GIF test holds exactly when the last four characters, lower-cased, are ".gif" |
| Compose.Composite | stan_meme_creator/core/image_processor.py:53-55 | the composite has exactly the requested canvas size |
| Compose.CompositeMaskRule | stan_meme_creator/core/image_processor.py:53-55 | where the template is opaque the output shows the template; where it is fully transparent it shows the user image inside the pasted rectangle and transparent black outside it |
| Compose.ComposeFrame | stan_meme_creator/core/image_processor.py:53-55 | the canvas, paste and masked-paste sequence computes Composite |
| Compose.AnimationFrames | stan_meme_creator/core/image_processor.py:67-77 | when the slot size is accepted by `resize`, one output frame per template frame, each of its template frame's size |
| Compose.AnimationOutputShape | stan_meme_creator/core/image_processor.py:67-88 | the GIF fails exactly when `resize` refuses the slot size; otherwise output frame i is the composite of the stretched user image under template frame i, for every i, so there are as many frames as in the template, in the same order, each of its frame's size, with loop 0 and the template's duration or 100 |
| Compose.AnimationFrameMaskRule | stan_meme_creator/core/image_processor.py:68-77 | at each pixel of output frame i: where template frame i is opaque, that frame's pixel; where it is fully transparent, the stretched user pixel inside the slot rectangle and transparent black outside |
| Compose.ComposeAnimation | stan_meme_creator/core/image_processor.py:66-88 | the frame loop, which stops at the first refused `resize`, produces AnimationOutput |
| ImageProcessor.ProcessedFailures | stan_meme_creator/core/image_processor.py:27-37 | the "no transparent area" ValueError exactly when the first frame has no pixel with alpha 0; ZeroDivisionError exactly when there is a slot, the path is not a GIF, the aspect flag is set and the user image has zero width; the `resize` ValueError exactly when the size resized to is refused: the slot's size on the GIF and stretching paths, the scaled size on the aspect path |
| ImageProcessor.GifIgnoresAspectRatio | stan_meme_creator/core/image_processor.py:32-33 | on the GIF path the aspect flag does not change the result |
| ImageProcessor.ProcessedShape | stan_meme_creator/core/image_processor.py:32-37 | a still result has the template's size and comes only from a non-GIF path; an animated result comes only from a GIF path, with one frame of the right size per template frame |
| ImageProcessor.StaticSlotCoverage | stan_meme_creator/core/image_processor.py:49-55 | at a pixel where the template has alpha 0, the output is the fitted user image exactly when left <= x < right and top <= y < bottom, and transparent black otherwise |
| ImageProcessor.SlotEdgesShowThrough | stan_meme_creator/core/image_processor.py:49-55 | the slot's rightmost transparent column and its lowest transparent row each keep a pixel that stays transparent in the output |
| ImageProcessor.ProcessStaticTemplate | stan_meme_creator/core/image_processor.py:39-57 | the static compositor computes StaticComposite, including its failure |
| ImageProcessor.ProcessGifTemplate | stan_meme_creator/core/image_processor.py:59-91 | the GIF compositor computes AnimationOutput at the slot's corner and size, failing where `resize` raises |
| ImageProcessor.ProcessImage | stan_meme_creator/core/image_processor.py:11-37 | the dispatcher computes Processed: error without a slot, the GIF path by file name, the static path otherwise |
| LegacyUtils.VisitAnchored | stan_meme_creator/utils.py:18-22 | one step of the scan only widens the bounds, moves a bound only onto a transparent pixel, and encloses the pixel it visits when that pixel has alpha 0 |
| LegacyUtils.ScanColumnCovers | stan_meme_creator/utils.py:16-22 | one column of the scan only widens the bounds, encloses every transparent pixel it visits, and each bound it moves sits on a transparent pixel |
| LegacyUtils.ScanColumnsCover | stan_meme_creator/utils.py:15-22 | the column-by-column scan only widens the bounds, encloses every transparent pixel of the columns it visits, and each bound it moves sits on a transparent pixel |
| LegacyUtils.ScanFindsBox | stan_meme_creator/utils.py:13-22 | when some pixel is transparent, the full scan ends on the edges of the bounding box of the transparent pixels |
| LegacyUtils.ScanFindsNothing | stan_meme_creator/utils.py:13-22 | when no pixel is transparent, the full scan keeps its starting values (width, 0, height, 0) |
| LegacyUtils.ScannedArea | stan_meme_creator/utils.py:24-28 | a slot the older finder returns has positive width and height |
| LegacyUtils.ScannedVersusBulk | stan_meme_creator/utils.py:24-28 | the older finder is None exactly when the bulk box is missing or has zero width or height; otherwise it equals the bulk box with `left` in place of `bottom` |
| LegacyUtils.FindTransparentArea | stan_meme_creator/utils.py:7-28 | the nested pixel loops compute ScannedArea |
| LegacyUtils.InsertImage | stan_meme_creator/utils.py:83-103 | for a slot of positive size, as its caller passes, the user image stretched to the area's size, composited under the template on a canvas of the template's size |
| LegacyUtils.ProcessGifTemplate | stan_meme_creator/utils.py:33-57 | the older GIF compositor produces the same AnimationOutput as the current one |
| LegacyUtils.LegacyAgreesWithProcessor | stan_meme_creator/utils.py:59-80 | whenever the older pipeline returns a result, it is exactly the current pipeline's result without aspect preservation; it returns None exactly when the current finder has no box or a box of zero width or height |
| LegacyUtils.ProcessImage | stan_meme_creator/utils.py:59-80 | the older dispatcher computes LegacyProcessed: None without a slot, the GIF path by file name, the stretched still otherwise |
| LegacyUtils.IsGifImage | stan_meme_creator/utils.py:30-31 | the test holds exactly when the last four characters, lower-cased, are ".gif" |
| MemeUtils.PromptWordsAreWords | stan_meme_creator/utils/meme_utils.py:24 | every prompt word is non-empty and contains no whitespace |
| MemeUtils.Tag | stan_meme_creator/utils/meme_utils.py:30 | a tag has no surrounding whitespace and no capital letter, and no comma when the piece has none, as every `split(',')` piece does |
| MemeUtils.TagIgnoresCase | stan_meme_creator/utils/meme_utils.py:30 | lower-casing a piece before stripping and lower-casing it gives the same tag |
| MemeUtils.TagsAreNormalised | stan_meme_creator/utils/meme_utils.py:30 | every member of an entry's tag set has no comma, no surrounding whitespace and no capital letter |
| MemeUtils.Score | stan_meme_creator/utils/meme_utils.py:31 | the score is positive exactly when some tag is one of the prompt words, and never exceeds the number of prompt words |
| MemeUtils.MemeGenerator.constructor | stan_meme_creator/utils/meme_utils.py:9-12 | the generator holds the given path and catalog |
| MemeUtils.MemeGenerator.FindRelevantImage | stan_meme_creator/utils/meme_utils.py:19-36 | None exactly when every entry scores 0, including an empty catalog; otherwise the images of an entry with a positive, maximal score that scores strictly more than every earlier entry, so ties go to the first; the catalog is not modified |
| MemeUtils.PromptWordsIgnoreCase | stan_meme_creator/utils/meme_utils.py:24 | lower-casing the prompt first does not change its words |
| MemeUtils.TagSetIgnoresCase | stan_meme_creator/utils/meme_utils.py:30 | lower-casing the tag string first does not change the tag set |
| MemeUtils.ScoreIgnoresCase | stan_meme_creator/utils/meme_utils.py:24-31 | a score does not depend on the letter case of the tags or the prompt |
| MemeUtils.RepeatedTagsIgnored | stan_meme_creator/utils/meme_utils.py:30-31 | listing the tags twice gives the same tag set, so the same score |
| MemeUtils.RepeatedPromptWordsIgnored | stan_meme_creator/utils/meme_utils.py:24 | repeating the prompt gives the same word set, so the same score |
| MemeUtils.SpacedTagNeverMatches | stan_meme_creator/utils/meme_utils.py:24-31 | a tag containing whitespace is never counted |
| MemeUtils.TagSetOfWord | stan_meme_creator/utils/meme_utils.py:30 | a tag string without commas or whitespace has exactly one tag, itself lower-cased |
| MemeUtils.PromptWordsOfWord | stan_meme_creator/utils/meme_utils.py:24 | a one-word prompt has exactly one word, itself lower-cased |
| MemeUtils.OneWordMatch | stan_meme_creator/utils/meme_utils.py:24-31 | an entry tagged with one word scores exactly 1 against a prompt that is that word in any letter case |
| MemeUtils.DrakeExample | stan_meme_creator/utils/meme_utils.py:24-31 | the tag "Drake" scores 1 against the prompt "drake" |
| Text.LowerChar | stan_meme_creator/utils/meme_utils.py:24 | lower-casing keeps whitespace and commas and leaves no ASCII capital |
| Text.LowerIdempotent | stan_meme_creator/utils/meme_utils.py:24 | lower-casing twice is lower-casing once |
| Text.LowerKeepsClasses | stan_meme_creator/utils/meme_utils.py:24 | lower-casing keeps whitespace at the same positions, keeps commas, and leaves no ASCII capital |
| Text.LowerAppend | stan_meme_creator/utils/meme_utils.py:24 | lower-casing works character by character over concatenation |
| Text.WordsAreWords | stan_meme_creator/utils/meme_utils.py:24 | `split()` yields non-empty pieces without whitespace |
| Text.WordsAppend | stan_meme_creator/utils/meme_utils.py:24 | splitting two texts joined by whitespace gives the words of each, in order |
| Text.WordsOfWord | stan_meme_creator/utils/meme_utils.py:24 | `split()` of a non-empty text without whitespace is that text alone |
| Text.SplitComma | stan_meme_creator/utils/meme_utils.py:30 | `split(',')` yields at least one piece, even for the empty text |
| Text.SplitCommaNoComma | stan_meme_creator/utils/meme_utils.py:30 | no piece of `split(',')` contains a comma |
| Text.SplitCommaOfPiece | stan_meme_creator/utils/meme_utils.py:30 | `split(',')` of a text without a comma is that text alone |
| Text.JoinSplitComma | stan_meme_creator/utils/meme_utils.py:30 | joining the pieces with commas gives back the original text |
| Text.SplitCommaAppend | stan_meme_creator/utils/meme_utils.py:30 | splitting two texts joined by a comma gives the pieces of each, in order |
| Text.Strip | stan_meme_creator/utils/meme_utils.py:30 | a stripped text is empty or starts and ends with a non-whitespace character |
| Text.StripRemovesOnlyEnds | stan_meme_creator/utils/meme_utils.py:30 | the stripped text is a slice of the original with only whitespace before and after it |
| Text.StripKeepsCharacters | stan_meme_creator/utils/meme_utils.py:30 | stripping only removes characters |
| Text.StripNoSpace | stan_meme_creator/utils/meme_utils.py:30 | `strip()` leaves a text without whitespace unchanged |
| Text.StripLower | stan_meme_creator/utils/meme_utils.py:30 | stripping and lower-casing commute |
| Text.SplitCommaLower | stan_meme_creator/utils/meme_utils.py:30 | lower-casing before `split(',')` gives the lower-cased pieces |

## Left out

- The Streamlit pages, `config.py`, `core/template_manager.py` and the app entry points are not part of this model.
- File I/O is not modelled:
  - decoding a template with `Image.open`;
  - the `convert("RGBA")` calls;
  - `_load_meme_data`'s JSON reading.

  Templates arrive already decoded as a `Template` value. The catalog is handed to the constructor as a sequence of records.
- `MemeGenerator.generate_meme` is not modelled. It does an HTTP download, loads a font and draws text at floating-point positions.
- `resize` is a parameter that only guarantees the requested size. The pixels produced by resampling are not modelled.
- `Blend` is a parameter: only the alpha-0 and alpha-255 cases of PIL's masked paste are fixed.
- GIF byte encoding is not modelled. An animated result is the frame list with its `loop` and `duration` parameters. This covers `BytesIO`, `save_all`, `optimize` and the rewinding `seek`.
- ImageProcessor.ProcessGifTemplate: the per-frame conversion to a palette image with an adaptive palette is not modelled; frames are kept in RGBA. The same holds for LegacyUtils.ProcessGifTemplate.
- Compose.FrameDuration: reads one declared duration for the whole template. Which frame's `info` PIL reports after iteration is not modelled.
- `utils.py`'s `process_image` side effects are not modelled: creating the output folder, building `output_path`, and the `print` calls.
- ImageUtils.TargetSize: Python computes `int(p / q)` through a float. The model uses exact floor division, which differs only once the products exceed 2^53.
- Raster.Resize: only the size test of PIL's `resize` is modelled. A refused size is an error; a size equal to the image's own gives the image back; any other size gives the resampler's image.
- Text.LowerChar: only ASCII letters are lower-cased. Python's full Unicode case mapping is not modelled.
- Compose.Template.Valid: the template must have at least one frame, as every decoded image does.

  The user image's own colour mode is not modelled. It is taken as RGBA.
