# Subtle bad-crop geometry, modelled in Dafny

`simple_bad_crop.py` builds a "bad crop" of each image in a directory. It does
this to get negative examples for a composition classifier.
`generate_subtle_bad_crop` reads the image's width `w` and height `h`. It picks
one of five named strategies with `random.choice`. The strategies are
`slightly_off_center`, `cut_bottom`, `cut_top`, `cut_side` and
`awkward_but_not_extreme`. The chosen branch draws a crop size with
`int(side * random.uniform(a, b))` and a position with `random.randint`.
The image is then sliced with the resulting rectangle.
`create_simple_bad_crops` processes only files with an image suffix. It saves
each crop as `"Badcrop" + stem + suffix`.

The model is functional. Every random draw is a parameter, and the range the
source draws it from is a precondition:

- `int(side * uniform(a, b))` becomes a crop size `c` with
  `side * a% / 100 <= c <= side * b% / 100` (predicate `BadCrop.Drawn`);
- `int(side * 0.1)` becomes `side / 10`, and `int(side * 0.05)` becomes `side / 20`;
- `randint(lo, hi)` becomes a pick inside `Geometry.Range(lo, hi)`;
- `random.choice(strategies)` becomes an index into `Strategies.StrategyNames`,
  and the coin of `cut_side` becomes a `bool`.

Modules:

- `geometry.dfy` (`Geometry`): rectangles, `randint` ranges, the
  `max(lo, min(hi, v))` clamp and the extent of a NumPy slice.
- `strategies.dfy` (`Strategies`): the strategy names and the `if`/`elif`
  dispatch on them, plus the ratio ranges of each branch.
- `bad_crop.dfy` (`BadCrop`): the five branches, the whole rectangle
  computation, the slice and the load failure.
- `file_names.dfy` (`FileNames`): `Path.suffix`, `Path.stem`, the extension
  filter and the output name.

The code checks nothing about the image size. Its only error is the
`ValueError` raised when `cv2.imread` cannot load the file
(simple_bad_crop.py:28-29). Nothing clamps a crop to a minimum size. On an axis
of one pixel every strategy draws a crop of 0 pixels
(`OnePixelSideCropsNothing`). A crop of at least one pixel is guaranteed only
on axes of two pixels or more.

The `max(1, ...)` guards are kept exactly as written. The model proves they
never take effect on a non-empty axis (`EdgeRangeIsPlacements`,
`MarginRangeKeepsMargins`). On an axis of length 0 they would admit position 1,
but `cv2.imread` never yields a zero-sized image, so the in-bounds results
assume `w, h >= 1`.

The code does not honour two of its own comments. `slightly_off_center` is
described as off-centre (simple_bad_crop.py:45, 49), but its offsets are drawn
from ranges that contain 0. `awkward_but_not_extreme` says "Ensure it's not
perfectly centered" (simple_bad_crop.py:89), but its position ranges contain
the centre. Both branches can return an exactly centred crop
(`OffCenterCanBeCentred`, `AwkwardCanBeCentred`). The model follows the code.

## Model

| member | source | states |
|---|---|---|
| Strategies.Branch | simple_bad_crop.py:44-84 | each listed name runs the branch of that name; any other string falls into the final `else` (`awkward_but_not_extreme`) |
| Strategies.Select | simple_bad_crop.py:34-42 | the branch run for the drawn list entry is the strategy whose name was drawn |
| Strategies.SelectIsBijective | simple_bad_crop.py:34-44 | every strategy is reachable from exactly one list entry, so each draw runs exactly one branch and distinct draws run distinct branches |
| Strategies.WidthShare | simple_bad_crop.py:46-86 | every width ratio range lies within 0.60-0.90 and is non-degenerate |
| Strategies.HeightShare | simple_bad_crop.py:47-87 | every height ratio range lies within 0.60-0.90 and is non-degenerate |
| BadCrop.Drawn | simple_bad_crop.py:46-87 | a crop size `c` is drawn exactly when it is `int(side * u)` for some ratio `u` in the range: `0 <= c`, `c*100 <= side*hi` and `side*lo < (c+1)*100` |
| BadCrop.OffsetRange | simple_bad_crop.py:51-52 | the offset range is symmetric about 0, never empty, and reaches exactly `int(side*0.1)` |
| BadCrop.EdgeRange | simple_bad_crop.py:62-78 | the edge draw starts at 0, never ends below 1 because of the `max(1, …)` guard, and always reaches `side - crop` |
| BadCrop.MarginRange | simple_bad_crop.py:90-91 | the margin draw starts at `int(side*0.05)`, never ends below 1 because of the `max(1, …)` guard, and always reaches `side - crop - int(side*0.05)` |
| BadCrop.DrawnBounds | simple_bad_crop.py:46-87 | a truncated crop size is between 0 and the side; it is at most side-1 for a side of 1 or more, at least 1 for a side of 2 or more, and exactly 0 for a side of 1 |
| BadCrop.EdgeRangeIsPlacements | simple_bad_crop.py:62-78 | on a non-empty axis the `max(1, side - crop)` guard is inert: the draw covers exactly the positions where the crop fits |
| BadCrop.MarginRangeKeepsMargins | simple_bad_crop.py:90-91 | the margin draw is never empty; on a non-empty axis its guard is inert and every pick leaves `int(side*0.05)` free on both sides |
| BadCrop.RandIntRangesNonEmpty | simple_bad_crop.py:51-91 | every `randint` each branch calls has lower bound <= upper bound, for every image size, so no branch raises `ValueError` |
| BadCrop.OffCenterClampInert | simple_bad_crop.py:54-55 | the `max(0, min(...))` clamp never takes effect: with a 65-80% crop and an offset within a tenth of the side, the shifted centred position always fits |
| BadCrop.OffCenterAxis | simple_bad_crop.py:50-55 | the clamped off-centre position fits the axis, equals the centred position plus the offset, and so lies within a tenth of the side of the centred position |
| BadCrop.OffCenterCrop | simple_bad_crop.py:44-55 | `slightly_off_center` stays inside the image for every size; it sits exactly at the centred position plus the drawn offsets, within `±int(0.1·side)` of the centre |
| BadCrop.CutBottomCrop | simple_bad_crop.py:57-63 | `cut_bottom` keeps the top edge (`y = 0`) and lies inside any image of width >= 1 |
| BadCrop.CutTopCrop | simple_bad_crop.py:65-71 | `cut_top` keeps the bottom edge (`y + crop_h = h`, `y >= 0`) and lies inside any image of width >= 1 |
| BadCrop.CutSideCrop | simple_bad_crop.py:73-82 | `cut_side` keeps the left edge when the coin says so and the right edge otherwise, and lies inside any image of height >= 1 |
| BadCrop.AwkwardCrop | simple_bad_crop.py:84-91 | `awkward_but_not_extreme` leaves at least `int(side*0.05)` on all four sides of the crop |
| BadCrop.Generate | simple_bad_crop.py:31-91 | the rectangle has the drawn size and a non-negative corner; it lies inside every non-empty image, is strictly smaller on each axis, and is non-empty on axes of 2 pixels or more |
| BadCrop.GenerateKeepsShape | simple_bad_crop.py:44-91 | whichever branch is drawn, the rectangle obeys that branch's edge rule |
| BadCrop.SomeDraws | simple_bad_crop.py:42-91 | for every image size and every strategy, draws that meet all the source's ranges exist |
| BadCrop.OnePixelSideCropsNothing | simple_bad_crop.py:46-87 | an axis of one pixel gets a crop of 0 pixels under every strategy |
| BadCrop.CutBottomExample | simple_bad_crop.py:57-63 | 800×600, `cut_bottom`, crop 640×420, x drawn as 50 gives `(50, 0, 640, 420)` |
| BadCrop.CutTopExample | simple_bad_crop.py:65-71 | 600×800, `cut_top`, crop 480×560 puts the crop at row 240 |
| BadCrop.OffCenterCanBeCentred | simple_bad_crop.py:44-55 | although lines 45 and 49 call it off-centre, `slightly_off_center` with both offsets drawn as 0 gives a crop with equal space on opposite sides (100×100, crop 70×70 at (15, 15)) |
| BadCrop.AwkwardCanBeCentred | simple_bad_crop.py:84-91 | although line 89 says the position is never perfectly centred, `awkward_but_not_extreme` on 100×100 with crop 70×70 and both picks 15 gives the exactly centred `(15, 15, 70, 70)` |
| BadCrop.Slice | simple_bad_crop.py:93 | slicing with a rectangle that lies inside the image yields exactly the rectangle's rows and columns; otherwise NumPy clips it |
| BadCrop.GenerateSubtleBadCrop | simple_bad_crop.py:26-93 | it succeeds exactly when the image loaded, and a failure always names the path; otherwise the returned array is the rectangle computed from the draws, with the drawn crop size and the branch's edge rule, in bounds, strictly smaller than the image and non-empty for sides >= 2 |
| Geometry.Clamp | simple_bad_crop.py:54-55 | `max(lo, min(hi, v))` is `v` when in range, else the nearer bound |
| Geometry.SliceLength | simple_bad_crop.py:93 | a slice within an axis keeps `stop - start` positions, never more than the axis, and none when it starts past the end |
| FileNames.LastDot | simple_bad_crop.py:112 | the `rfind('.')` inside `Path.suffix`: the index of a dot with no dot after it, or -1 when the name has no dot |
| FileNames.Suffix | simple_bad_crop.py:112 | the suffix is non-empty exactly when the last dot is neither the first nor the last character; then it is a trailing dot plus dot-free characters, with part of the name before it |
| FileNames.Stem | simple_bad_crop.py:132 | the stem is a prefix of the name |
| FileNames.StemSuffixSplit | simple_bad_crop.py:132-133 | stem followed by suffix gives back the name, and a name with a suffix has a non-empty stem |
| FileNames.Lower | simple_bad_crop.py:112 | lower-casing keeps the length and lowers each ASCII letter in place |
| FileNames.IsImageFile | simple_bad_crop.py:112 | an entry passes the filter only if it has a suffix of 4 or 5 characters |
| FileNames.ExtensionsAreSuffixes | simple_bad_crop.py:108 | each accepted extension is a dot followed by dot-free characters |
| FileNames.IsImageFileByEnding | simple_bad_crop.py:108-113 | an entry is processed iff its name ends with an accepted extension in any ASCII case, with at least one character before it |
| FileNames.KeptCounts | simple_bad_crop.py:110-113 | by induction over the listing, the element-by-element comprehension keeps exactly the passing elements, each as often as it occurs, never more than it was given, and everything when all pass |
| FileNames.Filter | simple_bad_crop.py:110-113 | the list comprehension keeps exactly the elements that pass, each as often as it occurs, and keeps a listing whole when every element passes |
| FileNames.FilterSplits | simple_bad_crop.py:110-113 | the comprehension works element by element: filtering a concatenation joins the filtered parts in order |
| FileNames.ImageFiles | simple_bad_crop.py:110-113 | exactly the image files among the entries are kept, each as often as it is listed; a listing of image files only is kept whole |
| FileNames.ImageFilesSplits | simple_bad_crop.py:110-113 | processed entries keep their directory order: the filter of a concatenated listing is the concatenation of the filters |
| FileNames.OutputName | simple_bad_crop.py:132-134 | the output name is `"Badcrop"` followed by the whole original name |
| FileNames.OutputNameKeepsSuffix | simple_bad_crop.py:132-134 | the output name keeps the original suffix, in its original case, so a processed file's output is again an image file |

## Left out

- Pixel data. `cv2.imread`, `cv2.imwrite` and the NumPy array are not
  modelled (simple_bad_crop.py:27, 93, 138). An image is its shape, and the
  slice is the rectangle plus the number of rows and columns it keeps.
- Floating point. `random.uniform`, `int(w * 0.1)` and `int(w * 0.05)` are
  replaced by exact integer ranges and integer division. Rounding of the
  float product at the ends of a ratio range is not modelled.
- Probabilities. The uniform choice of strategy and the fairness of the coin
  are distributions; the model only states the range of each draw.
- BadCrop.Drawn: the ratio draw is taken as the closed range of truncated
  products. Whether `random.uniform` can return its upper bound exactly
  depends on float rounding, which is not modelled.
- FileNames.Lower: lower-cases ASCII letters only. Python's `str.lower` also
  maps non-ASCII letters. No non-ASCII letter lowers to a string that makes a
  suffix match one of the ASCII extensions, so the filter decides the same.
- FileNames.Suffix: follows the long-standing `pathlib` rule, where a name
  ending in a dot has no suffix. Newer Python versions report `.` there;
  either way such a name is not an image file.
- Surrogate characters. A name is a sequence of Dafny characters, which
  exclude lone surrogates, so file names that `Path.iterdir` decodes with
  `surrogateescape` (undecodable bytes, simple_bad_crop.py:110) cannot be
  represented.
- Directory handling: creating the output directory, iterating the input
  directory, progress printing, the per-file `try`/`continue` loop and `main`
  (simple_bad_crop.py:103-106, 115-129, 135-178). A crop of 0 pixels on an
  axis (see `OnePixelSideCropsNothing`) reaches `cv2.imwrite`, which is
  outside the model.
- efficient_download.py is not part of this model. It is an HTTP client and
  file copier with no crop logic.
