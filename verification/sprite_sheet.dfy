/**
  The sprite-sheet builder: every image must have the first image's size;
  the sheet is a square grid of G x G cells with G = trunc(sqrt(N + 1)), and
  image i goes to column i mod G and row i div G.
 */
module SpriteSheet {
  import opened Wrappers
  import opened Errors
  import IntSqrt

  /** An image's metadata: its width and height in pixels. */
  datatype Size = Size(width: nat, height: nat)

  /** One entry of the composite list: which file, and its top-left corner. */
  datatype Placement = Placement(input: string, left: nat, top: nat)

  /** The canvas size and the composite list handed to the image library. */
  datatype Sheet = Sheet(width: nat, height: nat, placements: seq<Placement>)

  /** The size test of the check loop: both width and height agree. */
  predicate SameSize(a: Size, b: Size) {
    a.width == b.width && a.height == b.height
  }

  /** The position of the first size that differs from base, or |sizes| if none does. */
  function FirstMismatch(sizes: seq<Size>, base: Size): (k: nat)
    ensures k <= |sizes|
    ensures forall j :: 0 <= j < k ==> SameSize(sizes[j], base)
    ensures k < |sizes| ==> !SameSize(sizes[k], base)
  {
    if sizes == [] then 0
    else if !SameSize(sizes[0], base) then 0
    else 1 + FirstMismatch(sizes[1..], base)
  }

  /**
    The size check: walk the list in order, comparing each image with the
    first; stop at the first one that differs and name it.
   */
  method CheckSizes(filenames: seq<string>, sizes: seq<Size>) returns (r: Result<Size, Error>)
    requires |filenames| == |sizes| > 0
    ensures r.Success? <==> forall j :: 0 <= j < |sizes| ==> SameSize(sizes[j], sizes[0])
    ensures r.Success? ==> r.value == sizes[0]
    ensures r.Failure? ==>
              FirstMismatch(sizes, sizes[0]) < |filenames| &&
              r.error == SizeMismatch(filenames[FirstMismatch(sizes, sizes[0])])
  {
    var base := sizes[0];
    var i := 0;
    while i < |filenames|
      invariant 0 <= i <= |filenames|
      invariant forall j :: 0 <= j < i ==> SameSize(sizes[j], base)
    {
      var current := sizes[i];
      if current.width != base.width || current.height != base.height {
        return Failure(SizeMismatch(filenames[i]));
      }
      i := i + 1;
    }
    return Success(base);
  }

  /** The grid dimension: rows and columns both, trunc(sqrt(count + 1)). */
  function GridSize(count: nat): (g: nat)
    ensures g * g <= count + 1 < (g + 1) * (g + 1)
    ensures g >= 1
  {
    IntSqrt.Isqrt(count + 1)
  }

  /**
    The canvas and composite list for a g x g grid: placement i takes file i
    and sits at column i mod g, row i div g, each cell one image in size.
   */
  function Arrange(filenames: seq<string>, g: nat, base: Size): (sheet: Sheet)
    requires g > 0
    ensures sheet.width == base.width * g && sheet.height == base.height * g
    ensures |sheet.placements| == |filenames|
    ensures forall i :: 0 <= i < |filenames| ==> sheet.placements[i].input == filenames[i]
  {
    Sheet(base.width * g, base.height * g,
          seq(|filenames|, i requires 0 <= i < |filenames| =>
                Placement(filenames[i], (i % g) * base.width, (i / g) * base.height)))
  }

  /** The sheet the source builds: the grid above with G = GridSize(N). */
  function Layout(filenames: seq<string>, base: Size): (sheet: Sheet)
    ensures sheet.width == base.width * GridSize(|filenames|)
    ensures sheet.height == base.height * GridSize(|filenames|)
    ensures |sheet.placements| == |filenames|
    ensures forall i :: 0 <= i < |filenames| ==> sheet.placements[i].input == filenames[i]
  {
    Arrange(filenames, GridSize(|filenames|), base)
  }

  /** A placed image lies entirely on the canvas. */
  predicate Inside(p: Placement, base: Size, sheet: Sheet) {
    p.left + base.width <= sheet.width && p.top + base.height <= sheet.height
  }

  /** a <= b implies a*k <= b*k on naturals. */
  lemma MulMono(a: nat, b: nat, k: nat)
    requires a <= b
    ensures a * k <= b * k
  {
  }

  /** a*k <= b*k with k > 0 implies a <= b. */
  lemma MulCancel(a: nat, b: nat, k: nat)
    requires k > 0 && a * k <= b * k
    ensures a <= b
  {
    if b < a {
      MulMono(b + 1, a, k);
      assert false;
    }
  }

  /** In a g x g grid, placement i is cell (i div g, i mod g) of a row-major order. */
  lemma ArrangeCell(filenames: seq<string>, g: nat, base: Size, i: nat) returns (row: nat, col: nat)
    requires g > 0 && i < |filenames|
    ensures col < g && i == row * g + col
    ensures Arrange(filenames, g, base).placements[i] == Placement(filenames[i], col * base.width, row * base.height)
  {
    row, col := i / g, i % g;
  }

  /** Row row of a g-column grid lies on a g-row canvas iff its indices are below g*g. */
  lemma {:induction false} RowOnCanvas(i: nat, row: nat, col: nat, g: nat, h: nat)
    requires col < g && i == row * g + col
    ensures row * h + h <= h * g <==> h == 0 || i < g * g
  {
    if row < g {
      MulMono(row + 1, g, g);
      MulMono(row + 1, g, h);
      assert i < g * g;
    } else {
      MulMono(g, row, g);
      assert i >= g * g;
      if h > 0 {
        MulMono(g + 1, row + 1, h);
      }
    }
  }

  /** Column col < g of a grid with cells w wide ends within a canvas w * g wide. */
  lemma {:induction false} ColumnOnCanvas(col: nat, g: nat, w: nat)
    requires col < g
    ensures col * w + w <= w * g
  {
    MulMono(col + 1, g, w);
  }

  /** In a g x g grid, a placement fits vertically iff its index is below g*g. */
  lemma {:induction false} ArrangeVertical(filenames: seq<string>, g: nat, base: Size, i: nat)
    requires g > 0 && i < |filenames|
    ensures Arrange(filenames, g, base).placements[i].top + base.height <= base.height * g
            <==> base.height == 0 || i < g * g
  {
    var row, col := ArrangeCell(filenames, g, base, i);
    RowOnCanvas(i, row, col, g, base.height);
  }

  /**
    Placement i is cell (row, col) of a row-major grid with G columns:
    i == row * G + col with col < G, and its corner is (col * w, row * h).
   */
  lemma PlacementCell(filenames: seq<string>, base: Size, i: nat) returns (g: nat, row: nat, col: nat)
    requires i < |filenames|
    ensures g == GridSize(|filenames|)
    ensures col < g && i == row * g + col
    ensures Layout(filenames, base).placements[i] == Placement(filenames[i], col * base.width, row * base.height)
  {
    g := GridSize(|filenames|);
    row, col := ArrangeCell(filenames, g, base, i);
  }

  /** Every image fits horizontally: column i mod G is below G. */
  lemma {:induction false} HorizontalFit(filenames: seq<string>, base: Size, i: nat)
    requires i < |filenames|
    ensures Layout(filenames, base).placements[i].left + base.width <= Layout(filenames, base).width
  {
    var g := GridSize(|filenames|);
    var row, col := ArrangeCell(filenames, g, base, i);
    ColumnOnCanvas(col, g, base.width);
  }

  /**
    An image fits vertically iff its index is below G*G (or images have no
    height): rows 0 .. G-1 are on the canvas, row G and below are not.
   */
  lemma {:induction false} VerticalFit(filenames: seq<string>, base: Size, i: nat)
    requires i < |filenames|
    ensures Layout(filenames, base).placements[i].top + base.height <= Layout(filenames, base).height
            <==> base.height == 0 || i < GridSize(|filenames|) * GridSize(|filenames|)
  {
    ArrangeVertical(filenames, GridSize(|filenames|), base, i);
  }

  /** In a g x g grid, every placement is on the canvas iff at most g*g images are placed. */
  lemma {:induction false} ArrangeAllInside(filenames: seq<string>, g: nat, base: Size)
    requires g > 0
    ensures (forall i :: 0 <= i < |filenames| ==>
               Inside(Arrange(filenames, g, base).placements[i], base, Arrange(filenames, g, base)))
            <==> base.height == 0 || |filenames| <= g * g
  {
    var sheet := Arrange(filenames, g, base);
    if base.height == 0 || |filenames| <= g * g {
      forall i | 0 <= i < |filenames|
        ensures Inside(sheet.placements[i], base, sheet)
      {
        var row, col := ArrangeCell(filenames, g, base, i);
        ColumnOnCanvas(col, g, base.width);
        RowOnCanvas(i, row, col, g, base.height);
      }
    } else {
      ArrangeVertical(filenames, g, base, g * g);
    }
  }

  /**
    The whole composite list lies on the canvas iff the image count is at
    most G*G (or images have no height).
   */
  lemma {:induction false} AllInside(filenames: seq<string>, base: Size)
    ensures (forall i :: 0 <= i < |filenames| ==>
               Inside(Layout(filenames, base).placements[i], base, Layout(filenames, base)))
            <==> base.height == 0 || |filenames| <= GridSize(|filenames|) * GridSize(|filenames|)
  {
    assert Layout(filenames, base) == Arrange(filenames, GridSize(|filenames|), base);
    ArrangeAllInside(filenames, GridSize(|filenames|), base);
  }

  /** With non-empty images, no two placements share a top-left corner. */
  lemma {:induction false} DistinctCorners(filenames: seq<string>, base: Size, i: nat, j: nat)
    requires i < |filenames| && j < |filenames| && i != j
    requires base.width > 0 && base.height > 0
    ensures Layout(filenames, base).placements[i].left != Layout(filenames, base).placements[j].left
         || Layout(filenames, base).placements[i].top != Layout(filenames, base).placements[j].top
  {
    var g := GridSize(|filenames|);
    var ri, ci := ArrangeCell(filenames, g, base, i);
    var rj, cj := ArrangeCell(filenames, g, base, j);
    if ci * base.width == cj * base.width && ri * base.height == rj * base.height {
      MulCancel(ci, cj, base.width);
      MulCancel(cj, ci, base.width);
      MulCancel(ri, rj, base.height);
      MulCancel(rj, ri, base.height);
      assert false;
    }
  }

  /** In a g x g grid holding more than g*g images, image g*g sits at (0, g*h). */
  lemma {:induction false} ArrangeOverflow(filenames: seq<string>, g: nat, base: Size)
    requires g > 0 && |filenames| > g * g
    ensures Arrange(filenames, g, base).placements[g * g] == Placement(filenames[g * g], 0, base.height * g)
  {
    var row, col := ArrangeCell(filenames, g, base, g * g);
    if row < g {
      MulMono(row + 1, g, g);
      assert false;
    } else if row > g {
      MulMono(g + 1, row, g);
      assert false;
    }
  }

  /**
    The formula undersizes the grid whenever N > G*G: image G*G is then
    placed in the left column, directly below the canvas.
   */
  lemma {:induction false} Undersized(filenames: seq<string>, base: Size)
    requires base.height > 0
    requires |filenames| > GridSize(|filenames|) * GridSize(|filenames|)
    ensures var g := GridSize(|filenames|);
            var sheet := Layout(filenames, base);
            sheet.placements[g * g].left == 0 && sheet.placements[g * g].top == sheet.height
            && !Inside(sheet.placements[g * g], base, sheet)
  {
    ArrangeOverflow(filenames, GridSize(|filenames|), base);
  }

  /** Five 100 x 100 images: G = 2, a 200 x 200 canvas, and image 4 at (0, 200), off the canvas. */
  lemma FiveImagesOverflow(filenames: seq<string>)
    requires |filenames| == 5
    ensures GridSize(5) == 2
    ensures Layout(filenames, Size(100, 100)).width == 200
    ensures Layout(filenames, Size(100, 100)).height == 200
    ensures Layout(filenames, Size(100, 100)).placements[4] == Placement(filenames[4], 0, 200)
    ensures !Inside(Layout(filenames, Size(100, 100)).placements[4], Size(100, 100), Layout(filenames, Size(100, 100)))
  {
    IntSqrt.IsqrtUnique(6, 2);
  }

  /** Two images: G = trunc(sqrt(3)) = 1, so the second image lies below the one-cell canvas. */
  lemma TwoImagesOverflow(filenames: seq<string>, base: Size)
    requires |filenames| == 2 && base.height > 0
    ensures GridSize(2) == 1
    ensures Layout(filenames, base).placements[1] == Placement(filenames[1], 0, base.height)
    ensures !Inside(Layout(filenames, base).placements[1], base, Layout(filenames, base))
  {
    IntSqrt.IsqrtUnique(3, 1);
  }

  /**
    The body of the sheet builder up to the composite call: the size check,
    then the canvas and the composite list for the first image's size.
   */
  method CreateSpriteSheet(filenames: seq<string>, sizes: seq<Size>) returns (r: Result<Sheet, Error>)
    requires |filenames| == |sizes| > 0
    ensures r.Success? <==> forall j :: 0 <= j < |sizes| ==> SameSize(sizes[j], sizes[0])
    ensures r.Success? ==> r.value == Layout(filenames, sizes[0])
    ensures r.Failure? ==>
              FirstMismatch(sizes, sizes[0]) < |filenames| &&
              r.error == SizeMismatch(filenames[FirstMismatch(sizes, sizes[0])])
  {
    var checked := CheckSizes(filenames, sizes);
    match checked
    case Failure(e) =>
      return Failure(e);
    case Success(base) =>
      return Success(Layout(filenames, base));
  }
}
