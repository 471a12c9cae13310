# Mosaic maker, modelled in Dafny

This project models the core of the mosaic maker, `src/mosaic_creator.py`. The program builds one square grid image (a mosaic) from a folder of equally sized images. The model covers four steps and proves what each one promises:

- **Loading** (`load_images_from_folder`). The directory entries are filtered to names ending in `.jpg`, `.jpeg` or `.png`, in any case. They are sorted stably by the number in the leftmost `-<digits>.`, and names without one go last. Each file is then decoded, and files that fail to decode are dropped. Modules `FileNames`, `FileOrder` and `ImageSource`.
- **Uniform sampling** (`sample_uniformly`). The list is returned unchanged when it is no longer than `k`. Otherwise `k` images are picked at positions `int(i * n / k)`. Module `Sampler`.
- **Grid and compositing** (`create_image_mosaic`). The grid side `g` is the least value with `g*g >= num_images`. A black canvas of `g*h` by `g*w` pixels is allocated, and tile `idx` is copied into the block at grid row `idx / g`, column `idx % g`. Modules `GridLayout` and `Compositor`. The canvas is an `array2<Pixel>` and the copy is a pair of nested loops.
- **The pipeline check** (`main` without its output step). If fewer images were loaded than requested, it stops with an error. Otherwise it samples, then composites. Module `MosaicPipeline`.

The directory listing (`os.listdir`) is an input sequence of names. The decoder (`cv2.imread` on the joined path) is an input function `decode: string -> Option<T>`, where `None` stands for a failed decode. Python's stable `list.sort` is described by a stable insertion sort, `FileOrder.SortByKey`. The model proves what determines its result: it is sorted by key, it is a permutation of its input, and names with equal keys keep their order. `DivMod` holds the facts about division that the index arithmetic uses.

Some behaviour of the code worth stating outright:

- `main` raises a `ValueError` whose message gives no counts, so `MosaicError` has a single case and no fields.
- The compositor does not check that the tiles share one shape. The model states this as a precondition; there is no shape error.
- The loader does not report how many files it skipped.
- Ties between keyless names are fixed: the stable sort keeps them in listing order.

The numpy canvas of shape `(g*h, g*w, 3)` and dtype `uint8` is a `g*h` by `g*w` array of `Pixel` values, each holding three `Byte` channels.

Preconditions the code relies on but never checks are `requires` clauses:

- `num_images >= 1`. With 0, `selected_images[0]` or the division in `sample_uniformly` raises.
- A non-empty image list for `create_image_mosaic`, which indexes `selected_images[0]`.
- Every selected tile has the first tile's height and width, which the slice assignment at line 60 assumes.

A `num_samples` of zero with a non-empty list divides by zero, so `SampleUniformly` requires `|images| <= numSamples || numSamples != 0`. A negative `num_samples` gives an empty range and so an empty list, as in the code.

## Model

| member | source | states |
|---|---|---|
| FileNames.BeforeFinalNewline | src/mosaic_creator.py:24 | `$` matches at the end or before one final line feed: the result is the name, or the name is the result plus a line feed |
| FileNames.IsImageFileName | src/mosaic_creator.py:24 | `re.match(r".*\.(jpg\|jpeg\|png)$", f, re.IGNORECASE)`: up to the end anchor the name holds no line feed and ends in one of the three extensions, in any case |
| FileNames.EndAnchorAllowsOneLineFeed | src/mosaic_creator.py:24 | `$` accepts one final line feed: adding one to a name without line feeds keeps the verdict, and two final line feeds always reject |
| FileNames.ImageFiles | src/mosaic_creator.py:21-25 | the filtered list is no longer than the listing |
| FileNames.ImageFilesSelectsImages | src/mosaic_creator.py:21-25 | the filtered list holds each listing entry that matches the image-extension pattern, as often as the listing does, and nothing else |
| FileNames.ImageFilesKeepOrder | src/mosaic_creator.py:21-25 | the comprehension keeps listing order: filtering a concatenation is the concatenation of the filtered parts |
| FileNames.LoweringKeepsSuffixMatch | src/mosaic_creator.py:24 | lower-casing a name never changes whether it ends in a given extension, in any case |
| FileNames.LoweringKeepsLineFeeds | src/mosaic_creator.py:24 | lower-casing keeps every line feed where it was, so the part before the end anchor is lowered along with the name |
| FileNames.ImageFileNameIgnoresCase | src/mosaic_creator.py:24 | the extension test is case-insensitive: lower-casing a name never changes whether it is selected |
| FileNames.KeyLe | src/mosaic_creator.py:29-31 | Python's `<=` between int keys and `float('inf')`: numbers compare by value and infinity is above every number |
| FileNames.KeyLeIsTotalOrder | src/mosaic_creator.py:29-31 | that comparison is reflexive, total, antisymmetric and transitive, with infinity strictly above every number |
| FileNames.DecimalValue | src/mosaic_creator.py:29 | `int()` of the digit group, read as base-ten digits |
| FileNames.LeadingZeroIgnored | src/mosaic_creator.py:29 | as with `int()`, a leading zero does not change the value |
| FileNames.DigitRun | src/mosaic_creator.py:28 | the greedy `[0-9]+` run starting at a position: all digits, and followed by the end or a non-digit |
| FileNames.MatchAt | src/mosaic_creator.py:28 | one position of re.search: a hyphen, a non-empty maximal digit run, then a dot |
| FileNames.PatternAtIsMatchAt | src/mosaic_creator.py:28 | `-([0-9]+)\.` matches at a position with group length m exactly when the maximal digit run there is followed by `.` and m is its length |
| FileNames.LeftmostMatch | src/mosaic_creator.py:28 | re.search's scan finds the leftmost matching position, and finds none only when no position matches |
| FileNames.ExtractNumber | src/mosaic_creator.py:27-29 | the key is infinite exactly when the pattern matches nowhere; otherwise it is the decimal value of the digits of the leftmost match |
| FileNames.NoHyphenMeansInfinite | src/mosaic_creator.py:27-29 | a name without `-` gets the infinite key |
| FileNames.FrameNameHasNoKey | src/mosaic_creator.py:27-29 | a frame file name such as `image_00001.jpg` gets the infinite key |
| FileNames.NumberedNameMatch | src/mosaic_creator.py:28 | in `foo-<d>.jpg` the search first matches at the hyphen, and the group is the digit d |
| FileNames.NumberedNameKey | src/mosaic_creator.py:27-29 | `foo-<d>.jpg` gets key d for every digit d, for example `foo-3.jpg` gets 3 |
| FileOrder.Insert | src/mosaic_creator.py:31 | inserting a name adds exactly that name to the multiset of names |
| FileOrder.SortByKey | src/mosaic_creator.py:31 | the sorted list is a permutation of its input |
| FileOrder.InsertKeepsSorted | src/mosaic_creator.py:31 | inserting into a list sorted by key keeps it sorted |
| FileOrder.SortIsSorted | src/mosaic_creator.py:31 | the sorted list is non-decreasing by key, with the infinite key largest |
| FileOrder.InsertIsStable | src/mosaic_creator.py:31 | an inserted name goes before every name that shares its key |
| FileOrder.SortIsStable | src/mosaic_creator.py:31 | for every key, the names with that key appear in the sorted list in their original order |
| FileOrder.StepPastOtherKey | src/mosaic_creator.py:31 | moving past a name with a different key keeps the inserted name ahead of the names that share its key |
| FileOrder.SortByKeyIsStableSort | src/mosaic_creator.py:31 | for any key function the sort returns a permutation of its input, sorted by key, with infinite keys after finite ones and equal keys in input order |
| FileOrder.OrderedImageFiles | src/mosaic_creator.py:21-31 | the ordered file list is a permutation of exactly the image entries of the listing; it is sorted by key; keyless names come after all keyed names; equal keys keep listing order |
| ImageSource.OrderedFiles | src/mosaic_creator.py:21-31 | the file list after the comprehension and `sort(key=extract_number)` |
| ImageSource.LoadedImages | src/mosaic_creator.py:11-38 | what load_images_from_folder returns: the ordered files decoded, failures dropped |
| ImageSource.DecodeAll | src/mosaic_creator.py:33-37 | decoding keeps at most one image per file |
| ImageSource.LoadImagesFromFolder | src/mosaic_creator.py:11-38 | the loop returns the decoded images of the filtered and sorted files, failed decodes dropped, and no more images than files |
| ImageSource.DecodedPositions | src/mosaic_creator.py:33-38 | there is one source position per loaded image |
| ImageSource.DecodedPositionsMatchImages | src/mosaic_creator.py:33-38 | every loaded image comes from a file at a strictly increasing position, and every file that decodes contributes its image |
| ImageSource.LoadedImagesFollowFileOrder | src/mosaic_creator.py:33-38 | the loaded images are the successfully decoded sorted files, in their relative order, with no more images than files and no more files than listing entries |
| ImageSource.NumberedFilesLoadInOrder | src/mosaic_creator.py:21-31 | the listing foo-3.jpg, foo-1.jpg, foo-2.jpg is loaded in the order foo-1, foo-2, foo-3 |
| Sampler.SourceIndex | src/mosaic_creator.py:92-93 | the pick position `i * n / k` lies inside the list |
| Sampler.SampleUniformly | src/mosaic_creator.py:78-94 | a list no longer than k comes back unchanged; otherwise exactly k images (none for negative k), pick i being the image at `i * n / k` |
| Sampler.FirstPickIsFirst | src/mosaic_creator.py:93 | the first pick is always index 0 |
| Sampler.PickGap | src/mosaic_creator.py:92-93 | consecutive picks are `n / k` or `n / k + 1` apart, and `n / k >= 1` |
| Sampler.PicksIncrease | src/mosaic_creator.py:92-93 | pick positions strictly increase |
| Sampler.LastPickNearEnd | src/mosaic_creator.py:92-93 | the last pick is at most `n / k + 1` positions from the end, so the picks span the list |
| Sampler.SampleIsSpreadSubsequence | src/mosaic_creator.py:88-94 | with n > k >= 1 the sample has exactly k images, taken at strictly increasing positions below n starting at 0 |
| GridLayout.GridFrom | src/mosaic_creator.py:52 | searching upward from a side whose smaller sides are all too small finds the least side whose square holds n |
| GridLayout.GridSize | src/mosaic_creator.py:52 | `ceil(sqrt(n))` is the least g with `g*g >= n` |
| GridLayout.GridSizeExamples | src/mosaic_creator.py:52 | grid sides for 1, 9, 10 and 16 images are 1, 3, 4 and 4 |
| GridLayout.GridSizeBounds | src/mosaic_creator.py:52 | for n >= 1 the side is between 1 and n |
| GridLayout.CellsFillGridRowMajor | src/mosaic_creator.py:57-59 | for up to g*g tiles, tile idx goes to cell (idx / g, idx % g) inside the grid; cells follow row-major order and are pairwise distinct |
| Compositor.Prefix | src/mosaic_creator.py:53 | `images[:n]` has min(n, len) elements, each the image at the same index |
| Compositor.PaintedPixel | src/mosaic_creator.py:55-60 | the canvas after the first `placed` passes of the loop: a pixel in the block of a placed tile is that tile's pixel, every other pixel is black |
| Compositor.MosaicPixel | src/mosaic_creator.py:55-62 | the returned canvas: the canvas with every tile placed |
| Compositor.CellOfPixel | src/mosaic_creator.py:58-60 | a canvas pixel belongs to cell idx exactly when it lies in that cell's block, and its offset in the block is its offset in the tile |
| Compositor.NothingPlacedIsBlack | src/mosaic_creator.py:55 | the zeroed canvas, before any tile is placed, is black everywhere |
| Compositor.BlockFitsCanvas | src/mosaic_creator.py:58-60 | the block of every grid cell lies inside the canvas, so the slice assignment writes in bounds |
| Compositor.PlacingNextTile | src/mosaic_creator.py:57-60 | copying tile idx into its block turns the canvas with idx tiles placed into the one with idx + 1 |
| Compositor.PasteTile | src/mosaic_creator.py:60 | the slice assignment puts the image's pixels in its block and leaves every other pixel unchanged |
| Compositor.CreateImageMosaic | src/mosaic_creator.py:41-62 | the canvas is newly allocated and g*h by g*w with g the least side holding num_images, and every pixel is the pixel of the tile whose cell holds it, or black |
| Compositor.TileBlockHoldsTile | src/mosaic_creator.py:55-60 | the block of cell idx holds tile idx exactly, pixel for pixel |
| Compositor.OutsideTilesIsBlack | src/mosaic_creator.py:55-60 | every pixel outside the blocks of the placed tiles is still black |
| Compositor.SixteenTiles | src/mosaic_creator.py:52-60 | sixteen 10-by-10 tiles give a 4-by-4 grid on a 40-by-40 canvas, and the block at rows and columns 30-39 holds tile 15 |
| MosaicPipeline.SampleFitsGrid | src/mosaic_creator.py:105-112 | with enough images the sample has exactly num_images images, and each one gets its own cell of the grid, in row-major order |
| MosaicPipeline.CreateMosaic | src/mosaic_creator.py:97-113 | the error `MosaicError.FewerImagesThanRequested` (the ValueError of line 107) exactly when fewer images loaded than requested; otherwise num_images images are sampled and the result is their mosaic on a new canvas |

## Left out

- `save_and_display_mosaic` (encoding with cv2.imwrite, colour conversion and matplotlib display): these are side effects through libraries that are not part of this model.
- The argparse command line and `src/extract_frames.py` (video decoding, frame writing, printing): input and output plumbing, not part of this model.
- `os.listdir`, `os.path.join` and `cv2.imread` are not modelled. The listing is an input sequence, and the decoder is an input function of the file name, with the folder fixed.
- SourceIndex: computes the pick position exactly as floor(i * n / k), whereas the code truncates the float product `i * (n / k)`. When that product lands just below an integer, the code picks one position lower, even for small n and k: for n = 30, k = 22, i = 11 the float step is 1.3636363636363635, the product is 14.999999999999998 and the code picks 14, where SourceIndex gives 15. For k = 16, the command-line default, and any k that divides n, the step is exact and the two agree.
- SampleUniformly: element i is the image at SourceIndex(i, n, k), so it inherits that one-position difference from the code's float rounding. The order and spacing lemmas (FirstPickIsFirst, PickGap, PicksIncrease, LastPickNearEnd, SampleIsSpreadSubsequence) are stated of these exact positions.
- GridSize: computes the exact least g with g*g >= n, whereas the code takes `ceil` of a float square root. Float rounding at extreme sizes is not modelled.
- SortByKey: describes the result of Python's list.sort, not its algorithm (Timsort). Stability, sortedness and permutation determine that result.
- ImageFiles: the extension test lower-cases ASCII letters only. For the letters of `jpg`, `jpeg` and `png`, no other character matches them under Python's case-insensitive matching.
- Pixel values are opaque bytes: no colour-space reasoning.
