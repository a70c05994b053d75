/**
  One run of the tool: list the input directory, keep the png entries and
  hand their full paths, with the images' sizes, to the sheet builder.
 */
module Pipeline {
  import opened Wrappers
  import opened Errors
  import opened InputList
  import opened SpriteSheet

  /**
    The directory-listing callback followed by the sheet builder. The
    listing (None when the directory cannot be read) and the size of each
    kept image, in the order of the full paths, are inputs.
   */
  method Run(dir: string, listing: Option<seq<string>>, sizes: seq<Size>) returns (r: Result<Sheet, Error>)
    requires listing.Some? ==> |sizes| == |FullPaths(dir, listing.value)|
    ensures listing.None? ==> r == Failure(ListingFailed)
    ensures listing.Some? && (forall f :: f in listing.value ==> !IsPng(f)) ==> r == Failure(NoImagesFound)
    ensures InputImages(dir, listing).Failure? ==> r == Failure(InputImages(dir, listing).error)
    ensures InputImages(dir, listing).Success? ==>
              var paths := InputImages(dir, listing).value;
              |sizes| == |paths| > 0 &&
              (r.Success? <==> forall j :: 0 <= j < |sizes| ==> SameSize(sizes[j], sizes[0])) &&
              (r.Success? ==> r.value == Layout(paths, sizes[0])) &&
              (r.Failure? ==> FirstMismatch(sizes, sizes[0]) < |paths| &&
                              r.error == SizeMismatch(paths[FirstMismatch(sizes, sizes[0])]))
  {
    var images := InputImages(dir, listing);
    match images
    case Failure(e) =>
      return Failure(e);
    case Success(paths) =>
      r := CreateSpriteSheet(paths, sizes);
  }
}
