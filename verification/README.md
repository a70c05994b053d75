# simple-sprite-sheet: a Dafny model of the layout core

simple-sprite-sheet is a command-line tool. It reads every png image in a
directory and pastes the images into one sprite sheet, which is a square grid
of equally sized cells. This project models the arithmetic and the checks of
`index.js` that decide what that sheet looks like:

- **Input filtering** (module `InputList`). The directory-listing callback keeps
  the entries whose name ends with `png`. That is a case-sensitive suffix test
  with no dot required, so `foopng` is kept. The callback joins each kept entry
  to the input directory in listing order and stops the run when nothing is
  kept. A failed listing also stops the run.
- **Uniform-size check** (module `SpriteSheet`, method `CheckSizes`). A loop
  compares every image's width and height with the first image's. It stops at
  the first image that differs and names that file.
- **Grid layout** (module `SpriteSheet`, functions `GridSize` and `Layout`).
  The grid dimension is `G = trunc(sqrt(N + 1))`, computed as an integer square
  root (module `IntSqrt`). The canvas is `G*w` by `G*h`. Image `i` is placed at
  `left = (i mod G)*w`, `top = (i div G)*h`.
- **One run** (module `Pipeline`, method `Run`). This is the listing callback
  followed by the sheet builder, up to the list of placements handed to the
  image library.

The formula for `G` can make the grid too small. When `N > G*G`, image `G*G`
and the images after it are placed below the canvas. This happens for N = 2
(G = 1) and for N = 5 (G = 2; with 100 x 100 images, image 4 lands at (0, 200)
on a 200 x 200 canvas). The model reproduces this behaviour as written:
`AllInside` proves that every image fits exactly when `N <= G*G`, and
`Undersized`, `FiveImagesOverflow` and `TwoImagesOverflow` exhibit the overflow.

`index.js` does not trim, crop, centre or rescale images. It requires all
images to have the same size and places them without offsets, and the model
does the same.

Exits with status 1 become `Failure` values of the `Errors.Error` type:
`ListingFailed`, `NoImagesFound` and `SizeMismatch(file)`.

## Model

| member | source | states |
|---|---|---|
| IntSqrt.Isqrt | index.js:166 | The result g satisfies g*g <= n < (g+1)*(g+1), so it is the truncated square root of n. |
| IntSqrt.IsqrtUnique | index.js:166 | Any g with g*g <= n < (g+1)*(g+1) equals Isqrt(n), so `Math.trunc(Math.sqrt(n))` (when exact) and the model agree. |
| InputList.PngEntries | index.js:130-133 | A name is in the filtered list iff it is in the listing and ends with "png". The list is never longer than the listing. |
| InputList.PngEntriesSelect | index.js:130-133 | The filter picks an increasing sequence of listing positions. Entry k of the result is the listing entry at the k-th picked position. A position is picked iff its entry ends with "png". So exactly the png entries are kept, each once, in listing order. |
| InputList.FullPathsOrder | index.js:130-135 | Full path k is the input directory joined to the k-th png entry, in listing order. Every png entry of the listing has a full path. |
| InputList.FullPaths | index.js:130-135 | The full-path list is no longer than the listing. It is empty iff no entry ends with "png". It contains the directory joined to every png entry, and every path in it is the directory joined to some png entry. Order is stated by FullPathsOrder. |
| InputList.InputImages | index.js:124-140 | A failed listing gives ListingFailed. NoImagesFound is returned iff no entry ends with "png". A listing with a png entry gives Success with the full-path list, which is non-empty. |
| InputList.FilterExamples | index.js:130-140 | "b.png" and "foopng" are kept in order, while "readme.txt" and "a.PNG" are dropped. A listing without png entries gives NoImagesFound. |
| SpriteSheet.FirstMismatch | index.js:155-158 | The result is the first position whose width or height differs from the base size, or the list length when there is none. Every earlier position matches the base. |
| SpriteSheet.CheckSizes | index.js:154-163 | The check succeeds iff every image has the first image's width and height, and then it returns that size. On failure it names the file at the first mismatching position. |
| SpriteSheet.GridSize | index.js:166 | G*G <= N+1 < (G+1)*(G+1), and G >= 1 for every image count. |
| SpriteSheet.Arrange | index.js:167-184 | For a g x g grid, the canvas is w*g by h*g, and there is one placement per filename with placement i carrying filename i. ArrangeCell and ArrangeAllInside give the cells and when all placements fit. |
| SpriteSheet.Layout | index.js:166-184 | The canvas is w*G by h*G. There is one placement per filename, and placement i carries filename i. |
| SpriteSheet.PlacementCell | index.js:180-184 | With g = GridSize(N), placement i is cell (row, col) of a row-major grid with g columns: i == row*g + col, col < g, and the corner is (col*w, row*h). |
| SpriteSheet.HorizontalFit | index.js:182 | Every placement's right edge, left + w, is within the canvas width. |
| SpriteSheet.VerticalFit | index.js:183 | A placement's bottom edge is within the canvas height iff i < G*G or the images have height 0. |
| SpriteSheet.AllInside | index.js:166-184 | Every placement lies on the canvas iff N <= G*G or the images have height 0. |
| SpriteSheet.DistinctCorners | index.js:182-183 | When w > 0 and h > 0, two different indices never share a top-left corner. |
| SpriteSheet.Undersized | index.js:166-183 | When N > G*G and h > 0, image G*G is placed at left 0 with its top at the canvas height, off the canvas. |
| SpriteSheet.FiveImagesOverflow | index.js:166-183 | For five 100 x 100 images: G = 2, the canvas is 200 x 200, and image 4 is at (0, 200), off the canvas. |
| SpriteSheet.TwoImagesOverflow | index.js:166-183 | For two images: G = 1, and the second image is at (0, h), below the one-cell canvas. |
| SpriteSheet.CreateSpriteSheet | index.js:151-184 | The builder succeeds iff all sizes match the first, and then yields Layout for the first image's size. Otherwise it fails naming the first mismatching file. |
| Pipeline.Run | index.js:124-143 | A listing error or a listing without png entries stops the run with that error. Otherwise the sheet builder's outcome on the full paths is the result. |

## Left out

- The image library calls (`sharp(...).metadata()`, `create`, `composite`, `toFile`) are not modelled. Image sizes are inputs, one per file in list order. The model stops at the canvas size and the list of placements. A file the library cannot decode, and the error logged by `toFile`, are not modelled.
- Command-line parsing with `yargs`, the help and version exits, debugger detection with `inspector`, and the global `Options` object are configuration and are not modelled. The input directory is a parameter.
- Reading the directory is not modelled: the listing is an input, with `None` standing for a listing error. Console output and `process.exit` become `Failure` results.
- `path.join` is modelled as the directory, one `/`, and the entry name. Path normalisation is not modelled.
- The asynchronous sequencing (`await`, callbacks) is not modelled. Each step runs in order.
- `Math.sqrt` on floating point is replaced by an exact integer square root. The two agree for any realistic image count.
- JavaScript numbers are doubles. Canvas sizes and offsets are unbounded naturals here, so precision loss beyond 2^53 is not modelled.
- SpriteSheet.CheckSizes: requires a non-empty list of the same length as the sizes. The source reads `filenames[0]`, and its only caller never passes an empty list.
