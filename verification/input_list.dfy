/**
  The directory-listing callback: keep the entries whose name ends with
  "png", prefix each with the input directory, and stop when none is left.
 */
module InputList {
  import opened Wrappers
  import opened Errors

  const PNG_SUFFIX: string := "png"

  /** `s.endsWith(suffix)`: the last |suffix| characters of s are suffix. */
  predicate EndsWith(s: string, suffix: string) {
    |suffix| <= |s| && s[|s| - |suffix|..] == suffix
  }

  /** The filter test: a case-sensitive suffix check, with no dot required. */
  predicate IsPng(name: string) {
    EndsWith(name, PNG_SUFFIX)
  }

  /** `path.join(dir, name)`, taken as joining with one separator. */
  function Join(dir: string, name: string): string {
    dir + "/" + name
  }

  /** `files.filter(f => f.endsWith("png"))`. */
  function PngEntries(files: seq<string>): (kept: seq<string>)
    ensures |kept| <= |files|
    ensures forall f :: f in kept <==> f in files && IsPng(f)
  {
    if files == [] then []
    else
      var rest := PngEntries(files[1..]);
      assert forall f :: f in files <==> f == files[0] || f in files[1..];
      if IsPng(files[0]) then [files[0]] + rest else rest
  }

  /** `.map(f => path.join(dir, f))` applied to the kept entries. */
  function FullPaths(dir: string, files: seq<string>): (paths: seq<string>)
    ensures |paths| <= |files|
    ensures paths == [] <==> forall f :: f in files ==> !IsPng(f)
    ensures forall f :: f in files && IsPng(f) ==> Join(dir, f) in paths
    ensures forall p :: p in paths ==> exists f :: f in files && IsPng(f) && p == Join(dir, f)
  {
    var kept := PngEntries(files);
    var paths := seq(|kept|, k requires 0 <= k < |kept| => Join(dir, kept[k]));
    assert paths == [] <==> forall f :: f in files ==> !IsPng(f) by {
      if kept != [] {
        assert kept[0] in kept;
      }
    }
    forall f | f in files && IsPng(f)
      ensures Join(dir, f) in paths
    {
      assert f in kept;
      var k :| 0 <= k < |kept| && kept[k] == f;
      assert paths[k] == Join(dir, f);
    }
    forall p | p in paths
      ensures exists f :: f in files && IsPng(f) && p == Join(dir, f)
    {
      var k :| 0 <= k < |paths| && paths[k] == p;
      assert kept[k] in kept;
    }
    paths
  }

  /** kept[k] is the entry of files at position idx[k]. */
  predicate Picks(files: seq<string>, kept: seq<string>, idx: seq<nat>) {
    |idx| == |kept| && forall k :: 0 <= k < |idx| ==> idx[k] < |files| && kept[k] == files[idx[k]]
  }

  /** A position is listed in idx iff its entry ends with "png". */
  predicate PicksPng(files: seq<string>, idx: seq<nat>) {
    forall i :: 0 <= i < |files| ==> (IsPng(files[i]) <==> i in idx)
  }

  /**
    The filter keeps exactly the png entries, each once, in their listing
    order: idx lists the positions of the kept entries, strictly increasing,
    and a position is listed iff its entry ends with "png".
   */
  lemma {:induction false} PngEntriesSelect(files: seq<string>) returns (idx: seq<nat>)
    ensures |idx| == |PngEntries(files)|
    ensures forall k :: 0 <= k < |idx| ==> idx[k] < |files| && PngEntries(files)[k] == files[idx[k]]
    ensures Increasing(idx)
    ensures forall i :: 0 <= i < |files| ==> (IsPng(files[i]) <==> i in idx)
  {
    if files == [] {
      idx := [];
    } else {
      var tail := files[1..];
      var rest := PngEntriesSelect(tail);
      assert Picks(tail, PngEntries(tail), rest) && PicksPng(tail, rest);
      ShiftIncreasing(rest);
      if IsPng(files[0]) {
        idx := [0] + Shift(rest);
        PicksKeepHead(files, rest);
        PicksPngKeepHead(files, rest);
      } else {
        idx := Shift(rest);
        PicksDropHead(files, rest);
        PicksPngDropHead(files, rest);
      }
      assert Picks(files, PngEntries(files), idx) && PicksPng(files, idx);
    }
  }

  /** A png head is picked at position 0, in front of the tail's picks shifted by one. */
  lemma PicksKeepHead(files: seq<string>, rest: seq<nat>)
    requires files != [] && IsPng(files[0])
    requires Picks(files[1..], PngEntries(files[1..]), rest)
    ensures Picks(files, PngEntries(files), [0] + Shift(rest))
  {
    var tail := files[1..];
    var shifted := Shift(rest);
    var idx := [0] + shifted;
    var kept := PngEntries(files);
    assert kept == [files[0]] + PngEntries(tail);
    forall k | 0 <= k < |idx|
      ensures idx[k] < |files| && kept[k] == files[idx[k]]
    {
      if k == 0 {
        assert idx[0] == 0 && kept[0] == files[0];
      } else {
        var j := rest[k - 1];
        assert idx[k] == shifted[k - 1] == j + 1;
        assert j < |tail| && PngEntries(tail)[k - 1] == tail[j];
        assert kept[k] == PngEntries(tail)[k - 1];
        assert tail[j] == files[j + 1];
      }
    }
  }

  /** A head that is not png is dropped: the picks are the tail's, shifted by one. */
  lemma PicksDropHead(files: seq<string>, rest: seq<nat>)
    requires files != [] && !IsPng(files[0])
    requires Picks(files[1..], PngEntries(files[1..]), rest)
    ensures Picks(files, PngEntries(files), Shift(rest))
  {
    var tail := files[1..];
    var idx := Shift(rest);
    var kept := PngEntries(files);
    assert kept == PngEntries(tail);
    forall k | 0 <= k < |idx|
      ensures idx[k] < |files| && kept[k] == files[idx[k]]
    {
      var j := rest[k];
      assert idx[k] == j + 1;
      assert j < |tail| && PngEntries(tail)[k] == tail[j];
      assert tail[j] == files[j + 1];
    }
  }

  /** With a png head, position 0 and the tail's png positions shifted by one are listed. */
  lemma PicksPngKeepHead(files: seq<string>, rest: seq<nat>)
    requires files != [] && IsPng(files[0])
    requires PicksPng(files[1..], rest)
    ensures PicksPng(files, [0] + Shift(rest))
  {
    var tail := files[1..];
    var idx := [0] + Shift(rest);
    forall i | 0 <= i < |files|
      ensures IsPng(files[i]) <==> i in idx
    {
      if i > 0 {
        ShiftMember(rest, i - 1);
        assert files[i] == tail[i - 1];
        assert i in idx <==> i in Shift(rest);
      }
    }
  }

  /** With a head that is not png, only the tail's png positions shifted by one are listed. */
  lemma PicksPngDropHead(files: seq<string>, rest: seq<nat>)
    requires files != [] && !IsPng(files[0])
    requires PicksPng(files[1..], rest)
    ensures PicksPng(files, Shift(rest))
  {
    var tail := files[1..];
    forall i | 0 <= i < |files|
      ensures IsPng(files[i]) <==> i in Shift(rest)
    {
      ShiftMember(rest, if i > 0 then i - 1 else 0);
      if i > 0 {
        assert files[i] == tail[i - 1];
      }
    }
  }

  /** Adds one to every position: the positions of a list's tail, seen from the whole list. */
  function Shift(rest: seq<nat>): (shifted: seq<nat>)
    ensures |shifted| == |rest|
    ensures forall k :: 0 <= k < |rest| ==> shifted[k] == rest[k] + 1
  {
    seq(|rest|, k requires 0 <= k < |rest| => rest[k] + 1)
  }

  predicate Increasing(idx: seq<nat>) {
    forall k, l :: 0 <= k < l < |idx| ==> idx[k] < idx[l]
  }

  /** Shifting keeps positions increasing, also with position 0 put in front. */
  lemma ShiftIncreasing(rest: seq<nat>)
    requires Increasing(rest)
    ensures Increasing(Shift(rest))
    ensures Increasing([0] + Shift(rest))
  {
    var idx := [0] + Shift(rest);
    forall k, l | 0 <= k < l < |idx|
      ensures idx[k] < idx[l]
    {
      assert idx[l] == rest[l - 1] + 1;
      if k > 0 {
        assert idx[k] == rest[k - 1] + 1;
      }
    }
  }

  /** A position shifted by one is in the shifted list iff it was in the original. */
  lemma ShiftMember(rest: seq<nat>, i: nat)
    ensures i + 1 in Shift(rest) <==> i in rest
    ensures 0 !in Shift(rest)
  {
    var shifted := Shift(rest);
    if i + 1 in shifted {
      var k :| 0 <= k < |shifted| && shifted[k] == i + 1;
      assert rest[k] == i;
    }
    if i in rest {
      var k :| 0 <= k < |rest| && rest[k] == i;
      assert shifted[k] == i + 1;
    }
  }

  /** Every full path is the input directory joined with the k-th kept entry. */
  lemma FullPathsOrder(dir: string, files: seq<string>) returns (idx: seq<nat>)
    ensures |FullPaths(dir, files)| == |idx|
    ensures forall k :: 0 <= k < |idx| ==>
              idx[k] < |files| && IsPng(files[idx[k]]) && FullPaths(dir, files)[k] == Join(dir, files[idx[k]])
    ensures Increasing(idx)
    ensures forall i :: 0 <= i < |files| && IsPng(files[i]) ==> i in idx
  {
    idx := PngEntriesSelect(files);
  }

  /**
    The callback's result: a listing error or an empty filtered list stop
    the run; otherwise the full paths go on to the sheet builder.
   */
  function InputImages(dir: string, listing: Option<seq<string>>): (r: Result<seq<string>, Error>)
    ensures listing.None? ==> r == Failure(ListingFailed)
    ensures listing.Some? ==>
      (r == Failure(NoImagesFound) <==> forall f :: f in listing.value ==> !IsPng(f))
    ensures r.Success? ==> listing.Some? && r.value == FullPaths(dir, listing.value) && r.value != []
    ensures listing.Some? && (exists f :: f in listing.value && IsPng(f)) ==>
              r == Success(FullPaths(dir, listing.value))
  {
    match listing
    case None => Failure(ListingFailed)
    case Some(files) =>
      var paths := FullPaths(dir, files);
      assert |paths| != 0 ==> PngEntries(files)[0] in PngEntries(files);
      if |paths| == 0 then Failure(NoImagesFound) else Success(paths)
  }

  /** "foopng" is kept (no dot needed), "a.PNG" is not (case matters), order is kept. */
  lemma FilterExamples()
    ensures PngEntries(["b.png", "readme.txt", "foopng", "a.PNG"]) == ["b.png", "foopng"]
    ensures InputImages("images", Some(["notes.txt"])) == Failure(NoImagesFound)
  {
    var files := ["b.png", "readme.txt", "foopng", "a.PNG"];
    assert IsPng("b.png") && IsPng("foopng");
    assert !IsPng("readme.txt") && !IsPng("a.PNG");
    assert files[1..][1..][1..][1..] == [];
    assert !IsPng("notes.txt");
  }
}
