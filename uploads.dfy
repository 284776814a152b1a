/** The admission rule of `addFiles` in the image resizer: of the files a
    user picks or drops, only images are taken, in the order given, and no
    more than the room left under the limit of ten uploads; when any is
    taken they are appended after the existing uploads and the previous
    resize results are cleared. */
module Uploads {

  /** A picked file; `mime` is the browser-reported `File.type`. */
  datatype File = File(name: seq<char>, mime: seq<char>)

  /** The page state that `addFiles` changes: the uploads, in order, and
      the resize results of the last run, of whatever type they have. */
  datatype Session<R> = Session(uploads: seq<File>, results: seq<R>)

  const MaxUploads: int := 10

  const ImagePrefix: seq<char> := "image/"

  /** `f.type.startsWith('image/')`. */
  predicate IsImage(f: File) {
    ImagePrefix <= f.mime
  }

  /** `files.filter(isImage)`: the images among `files`, in their order. */
  function Images(files: seq<File>): (r: seq<File>)
    ensures |r| <= |files|
    ensures forall i | 0 <= i < |r| :: IsImage(r[i]) && r[i] in files
    ensures forall f | f in files && IsImage(f) :: f in r
  {
    if files == [] then []
    else (if IsImage(files[0]) then [files[0]] else []) + Images(files[1..])
  }

  /** Filtering a concatenation filters each part, so the images keep
      their relative order. */
  lemma {:induction false} ImagesOfConcat(a: seq<File>, b: seq<File>)
    ensures Images(a + b) == Images(a) + Images(b)
  {
    if a == [] {
      assert a + b == b;
    } else {
      assert (a + b)[1..] == a[1..] + b;
      ImagesOfConcat(a[1..], b);
    }
  }

  /** The length JavaScript's `slice(0, end)` keeps of a list of `n`
      elements: a negative `end` counts back from the end, and the result
      never goes below zero or above `n`. */
  function SliceEnd(n: nat, end: int): (k: nat)
    ensures k <= n
  {
    if end < 0 then (if n + end < 0 then 0 else n + end)
    else if end < n then end
    else n
  }

  /** The files `addFiles` admits for uploads that already hold `count`
      entries: `images.slice(0, 10 - count)`. */
  function Admitted(count: nat, files: seq<File>): (toAdd: seq<File>)
    ensures toAdd <= Images(files)
  {
    var images := Images(files);
    images[..SliceEnd(|images|, MaxUploads - count)]
  }

  /** `addFiles`: when nothing is admitted the session is left alone;
      otherwise the admitted files follow the existing uploads and the
      results are cleared. */
  function AddFiles<R>(s: Session<R>, files: seq<File>): (t: Session<R>)
    ensures s.uploads <= t.uploads
  {
    var toAdd := Admitted(|s.uploads|, files);
    if |toAdd| == 0 then s
    else Session(s.uploads + toAdd, [])
  }

  /** Every upload `addFiles` appends is an image from the files given, and
      together they are the leading images of those files, in order. */
  lemma AddsOnlyImages<R>(s: Session<R>, files: seq<File>)
    ensures var added := AddFiles(s, files).uploads[|s.uploads|..];
      && added <= Images(files)
      && forall i | 0 <= i < |added| :: IsImage(added[i]) && added[i] in files
  {
    var t := AddFiles(s, files);
    var added := t.uploads[|s.uploads|..];
    assert added == Admitted(|s.uploads|, files);
    assert forall i | 0 <= i < |added| :: added[i] == Images(files)[i];
  }

  /** With at most ten uploads, `addFiles` appends as many images as fit
      under the limit: all of them when there is room, ten minus the count
      otherwise. */
  lemma AddsUpToRoom<R>(s: Session<R>, files: seq<File>)
    requires |s.uploads| <= MaxUploads
    ensures var added := |AddFiles(s, files).uploads| - |s.uploads|;
      added == if |Images(files)| < MaxUploads - |s.uploads| then |Images(files)| else MaxUploads - |s.uploads|
  {
  }

  /** The limit is kept: from at most ten uploads `addFiles` never goes
      above ten. */
  lemma KeepsLimit<R>(s: Session<R>, files: seq<File>)
    requires |s.uploads| <= MaxUploads
    ensures |AddFiles(s, files).uploads| <= MaxUploads
  {
    AddsUpToRoom(s, files);
  }

  /** `addFiles` changes nothing, results included, exactly when there is
      no image among the files or the uploads are already full. */
  lemma UnchangedExactly<R>(s: Session<R>, files: seq<File>)
    requires |s.uploads| <= MaxUploads
    ensures AddFiles(s, files) == s <==> |Images(files)| == 0 || |s.uploads| == MaxUploads
  {
    AddsUpToRoom(s, files);
  }

  /** When anything is added the previous resize results are cleared. */
  lemma ClearsResultsWhenAdding<R>(s: Session<R>, files: seq<File>)
    requires |AddFiles(s, files).uploads| > |s.uploads|
    ensures AddFiles(s, files).results == []
  {
  }

  /** Past the limit (a state `addFiles` itself never produces) the room
      `10 - count` is negative and `slice` counts back from the end, so
      all but the last `count - 10` images are still admitted. */
  lemma OverfullSlice(count: nat, files: seq<File>)
    requires count > MaxUploads
    ensures |Admitted(count, files)| == if |Images(files)| < count - MaxUploads then 0 else |Images(files)| - (count - MaxUploads)
  {
  }
}
