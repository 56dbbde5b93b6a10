/**
 * The image decisions of the compute manager: `_check_image_size`, the
 * type and rotation rules of `snapshot_instance`, and `rotate_backups` (a
 * paginated listing of an instance's backups, newest first, and the
 * deletion of the oldest ones beyond the rotation count).
 */
module ComputeImages {
  import opened Wrappers
  import opened ComputeStates

  // ---------------------------------------------------------------------
  // _check_image_size

  /** The image metadata: `size` in bytes may be missing. */
  datatype ImageMeta = ImageMeta(id: string, size: Option<nat>)

  datatype ImageTooLarge = ImageTooLarge

  const GIB: nat := 1024 * 1024 * 1024

  /** `_check_image_size`: `Ok(None)` when there is nothing to check (no size,
      or a flavor with `local_gb == 0`), `Ok(Some(meta))` when the image fits. */
  function CheckImageSize(meta: ImageMeta, localGb: nat): Result<Option<ImageMeta>, ImageTooLarge> {
    match meta.size
    case None => Ok(None)
    case Some(sizeBytes) =>
      if localGb == 0 then Ok(None)
      else if sizeBytes > localGb * GIB then Err(ImageTooLarge)
      else Ok(Some(meta))
  }

  /** The image is refused exactly when it has a size, the flavor a non-zero
      disk, and the size is more than that many GiB; an image of exactly the
      limit passes, and an image that passes comes back unchanged. */
  lemma CheckImageSizeLimit(meta: ImageMeta, localGb: nat)
    ensures CheckImageSize(meta, localGb).Err?
        <==> meta.size.Some? && localGb != 0 && meta.size.value > localGb * 1073741824
    ensures CheckImageSize(meta, localGb) == Ok(None) <==> meta.size.None? || localGb == 0
    ensures CheckImageSize(meta, localGb).Ok? && CheckImageSize(meta, localGb).value.Some?
        ==> CheckImageSize(meta, localGb).value.value == meta
    ensures meta.size == Some(localGb * 1073741824) ==> CheckImageSize(meta, localGb).Ok?
  {
  }

  // ---------------------------------------------------------------------
  // snapshot_instance

  datatype SnapshotError =
    | ImageTypeNotRecognized(imageType: string)
    | ImageRotationNotAllowed
    | RotationRequiredForBackup

  /** The effects of `snapshot_instance`, in order. */
  datatype SnapshotStep =
    | SetTaskState(task: TaskState)   // with power_state re-read and vm_state ACTIVE
    | TakeSnapshot                    // driver.snapshot
    | ClearTaskState                  // task_state None
    | RotateBackups(rotation: int)
    | Raise(error: SnapshotError)

  /** A rotation is used when it is given and non-zero (Python truthiness). */
  predicate Truthy(rotation: Option<int>) {
    rotation.Some? && rotation.value != 0
  }

  function SnapshotSteps(imageType: string, rotation: Option<int>): seq<SnapshotStep> {
    if imageType != "snapshot" && imageType != "backup" then [Raise(ImageTypeNotRecognized(imageType))]
    else
      var task := if imageType == "snapshot" then ImageSnapshot else ImageBackup;
      var prefix := [SetTaskState(task), TakeSnapshot, ClearTaskState];
      if imageType == "snapshot" && Truthy(rotation) then prefix + [Raise(ImageRotationNotAllowed)]
      else if imageType == "backup" && Truthy(rotation) then prefix + [RotateBackups(rotation.value)]
      else if imageType == "backup" then prefix + [Raise(RotationRequiredForBackup)]
      else prefix
  }

  /** An unknown type raises before any update; a known one is marked with
      its task state, snapshotted and unmarked first, and only then are the
      rotation rules applied: a snapshot refuses a rotation, a backup rotates
      with it or raises without one. */
  lemma SnapshotRules(imageType: string, rotation: Option<int>)
    ensures var steps := SnapshotSteps(imageType, rotation);
      ((imageType != "snapshot" && imageType != "backup") <==> steps == [Raise(ImageTypeNotRecognized(imageType))])
      && (imageType == "snapshot" || imageType == "backup" ==>
            |steps| >= 3
            && steps[..3] == [SetTaskState(if imageType == "snapshot" then ImageSnapshot else ImageBackup),
                              TakeSnapshot, ClearTaskState]
            && (Raise(ImageRotationNotAllowed) in steps <==> imageType == "snapshot" && Truthy(rotation))
            && (Raise(RotationRequiredForBackup) in steps <==> imageType == "backup" && !Truthy(rotation))
            && (forall n :: RotateBackups(n) in steps
                  <==> imageType == "backup" && rotation == Some(n) && n != 0))
  {
    var steps := SnapshotSteps(imageType, rotation);
    if imageType == "snapshot" || imageType == "backup" {
      var prefix := steps[..3];
      assert forall s :: s in steps ==> s in prefix || s in steps[3..] by {
        assert steps == prefix + steps[3..];
      }
    }
  }

  // ---------------------------------------------------------------------
  // rotate_backups

  datatype Image = Image(id: string, createdAt: int)

  predicate UniqueIds(images: seq<Image>) {
    forall i, j :: 0 <= i < j < |images| ==> images[i].id != images[j].id
  }

  /** The position of the image with this id. */
  function IndexOf(images: seq<Image>, id: string): (r: Option<nat>)
    ensures r.Some? ==> r.value < |images| && images[r.value].id == id
    ensures r.None? ==> forall i :: 0 <= i < |images| ==> images[i].id != id
  {
    if images == [] then None
    else if images[0].id == id then Some(0)
    else match IndexOf(images[1..], id)
      case None => None
      case Some(k) => Some(k + 1)
  }

  lemma IndexOfUnique(images: seq<Image>, k: nat)
    requires UniqueIds(images) && k < |images|
    ensures IndexOf(images, images[k].id) == Some(k)
  {
    var r := IndexOf(images, images[k].id);
    assert r.Some?;
  }

  /** `image_service.detail(marker=..., sort_dir='desc')` over the backups
      `catalog` (newest first): at most `pageSize` images after the one named
      by the marker, from the start without one; an unknown marker gives an
      empty page. */
  function Page(catalog: seq<Image>, marker: Option<string>, pageSize: nat): seq<Image> {
    var start := if marker.None? then 0
                 else match IndexOf(catalog, marker.value)
                   case None => |catalog|
                   case Some(k) => k + 1;
    var stop := if start + pageSize <= |catalog| then start + pageSize else |catalog|;
    catalog[start..stop]
  }

  /** With the marker at the last of the first `n` images, the page is the
      next `pageSize` images, or what is left of the catalog. */
  lemma PageAfter(catalog: seq<Image>, n: nat, marker: Option<string>, pageSize: nat)
    requires UniqueIds(catalog) && n <= |catalog|
    requires n == 0 ==> marker == None
    requires n > 0 ==> marker == Some(catalog[n - 1].id)
    ensures Page(catalog, marker, pageSize)
         == catalog[n..if n + pageSize <= |catalog| then n + pageSize else |catalog|]
  {
    if n > 0 {
      IndexOfUnique(catalog, n - 1);
    }
  }

  /** `fetch_images`: pages are concatenated until an empty one arrives, the
      marker moving to the last id of each page.  The result is the whole
      listing, in order. */
  method FetchImages(catalog: seq<Image>, pageSize: nat) returns (images: seq<Image>)
    requires pageSize > 0 && UniqueIds(catalog)
    ensures images == catalog
  {
    images := [];
    var marker: Option<string> := None;
    while true
      invariant |images| <= |catalog| && images == catalog[..|images|]
      invariant |images| == 0 ==> marker == None
      invariant |images| > 0 ==> marker == Some(catalog[|images| - 1].id)
      decreases |catalog| - |images|
    {
      var n := |images|;
      var stop := if n + pageSize <= |catalog| then n + pageSize else |catalog|;
      PageAfter(catalog, n, marker, pageSize);
      var batch := Page(catalog, marker, pageSize);
      if batch == [] {
        assert stop == n;
        break;
      }
      assert batch == catalog[n..stop] && |batch| == stop - n;
      assert batch[|batch| - 1] == catalog[stop - 1];
      assert catalog[..stop] == catalog[..n] + batch;
      images := images + batch;
      marker := Some(batch[|batch| - 1].id);
    }
  }

  /** The deletion half of `rotate_backups` on the listing `images`: with more
      images than the rotation, `len - rotation` are popped from the end (the
      oldest) and deleted one by one, so `deleted` lists them oldest first.
      A negative rotation asks for more pops than there are images, and the
      pop from the empty list raises `IndexError` once all have been deleted. */
  method DeleteExcess(images: seq<Image>, rotation: int) returns (deleted: seq<Image>, kept: seq<Image>, indexError: bool)
    ensures indexError <==> rotation < 0
    ensures rotation >= 0 ==> kept == images[..if |images| > rotation then rotation else |images|]
    ensures rotation < 0 ==> kept == []
    ensures |kept| + |deleted| == |images|
    ensures forall k :: 0 <= k < |deleted| ==> deleted[k] == images[|images| - 1 - k]
  {
    kept := images;
    deleted := [];
    indexError := false;
    if |images| > rotation {
      var excess := |images| - rotation;
      var i := 0;
      while i < excess
        invariant 0 <= i <= excess && i <= |images|
        invariant |deleted| == i && kept == images[..|images| - i]
        invariant forall k :: 0 <= k < i ==> deleted[k] == images[|images| - 1 - k]
      {
        if kept == [] {
          indexError := true;
          return;
        }
        var image := kept[|kept| - 1];
        kept := kept[..|kept| - 1];
        deleted := deleted + [image];
        i := i + 1;
      }
    }
  }

  /** `rotate_backups`: what is deleted, oldest first, and what stays.  A
      negative rotation deletes every image before the `IndexError`. */
  method RotateBackupsOf(catalog: seq<Image>, pageSize: nat, rotation: int)
    returns (deleted: seq<Image>, kept: seq<Image>, indexError: bool)
    requires pageSize > 0 && UniqueIds(catalog)
    ensures indexError <==> rotation < 0
    ensures |deleted| <= |catalog|
    ensures rotation >= 0 ==> |deleted| == (if |catalog| > rotation then |catalog| - rotation else 0)
    ensures rotation >= 0 ==> kept == catalog[..|catalog| - |deleted|]
    ensures rotation < 0 ==> kept == [] && |deleted| == |catalog|
    ensures forall k :: 0 <= k < |deleted| ==> deleted[k] == catalog[|catalog| - 1 - k]
  {
    var images := FetchImages(catalog, pageSize);
    deleted, kept, indexError := DeleteExcess(images, rotation);
  }
}
