/** The conditions under which the sprite-sheet run stops with exit status 1. */
module Errors {

  datatype Error =
    | ListingFailed                  // the input directory could not be listed
    | NoImagesFound                  // no directory entry ends with "png"
    | SizeMismatch(offending: string) // an image differs in size from the first one
}
