/**
 * The raw branch of `save_images` (src/main.rs:105-126, `keep_raw_binary`
 * set): for each image, in order, build its name, create the file and write
 * all of its bytes; a failure to create or to write is logged and the loop
 * goes on with the next image.
 *
 * The output directory is a value, a map from file name to contents. What the
 * operating system does with each attempt is a parameter: `io(name)` says
 * whether creating `name` failed, writing to it failed after some bytes, or
 * the whole image was written.
 */
module Writer {
  import opened Windows
  import opened Naming

  type FileMap = map<string, seq<byte>>

  /** The result of one `File::create` followed by `write_all`. */
  datatype IoOutcome =
    | Written
    | CreateFailed
    | WriteFailed(written: nat)

  /** The first `n` bytes of `data`, or all of it when it is shorter. */
  function Prefix(data: seq<byte>, n: nat): (p: seq<byte>)
    ensures |p| <= |data| && p == data[..|p|]
    ensures |p| == n || p == data
  {
    if n < |data| then data[..n] else data
  }

  /**
   * What one attempt leaves under `name`: the image when it was written; the
   * bytes written before the failure when `write_all` failed (the file was
   * created, and truncated, first); whatever was there before when the file
   * could not be created.
   */
  ghost predicate StoredAs(after: FileMap, before: FileMap, name: string, data: seq<byte>, outcome: IoOutcome)
  {
    match outcome
    case Written => name in after && after[name] == data
    case WriteFailed(n) => name in after && after[name] == Prefix(data, n)
    case CreateFailed =>
      && (name in after <==> name in before)
      && (name in before ==> after[name] == before[name])
  }

  /** One attempt: create or truncate `name`, then write `data` to it. */
  function Attempt(files: FileMap, name: string, data: seq<byte>, outcome: IoOutcome): (after: FileMap)
    ensures StoredAs(after, files, name, data, outcome)
    ensures forall other :: other != name ==>
              (other in after <==> other in files) && (other in files ==> after[other] == files[other])
  {
    match outcome
    case Written => files[name := data]
    case WriteFailed(n) => files[name := Prefix(data, n)]
    case CreateFailed => files
  }

  /** An attempt on one name leaves what an earlier attempt stored under another name. */
  lemma AttemptKeepsOthers(before: FileMap, files: FileMap, name: string, data: seq<byte>, outcome: IoOutcome,
                           other: string, kept: seq<byte>, keptOutcome: IoOutcome)
    requires other != name && StoredAs(before, files, other, kept, keptOutcome)
    ensures StoredAs(Attempt(before, name, data, outcome), files, other, kept, keptOutcome)
  {
  }

  /** An attempt on a name that still holds what it held at the start stores relative to the start. */
  lemma AttemptOnUntouched(before: FileMap, files: FileMap, name: string, data: seq<byte>, outcome: IoOutcome)
    requires name in before <==> name in files
    requires name in files ==> before[name] == files[name]
    ensures StoredAs(Attempt(before, name, data, outcome), files, name, data, outcome)
  {
  }

  /** `name` is the name of one of the first `n` images of `prefix`. */
  ghost predicate IsOneOfNames(prefix: string, n: nat, name: string)
  {
    exists k :: 0 <= k < n && name == ImageName(prefix, k)
  }

  /** Each of the first `i` images' names holds what its own attempt stored. */
  ghost predicate StoredUpTo(prefix: string, images: seq<seq<byte>>, io: string -> IoOutcome,
                             files: FileMap, after: FileMap, i: nat)
    requires i <= |images|
  {
    forall k :: 0 <= k < i ==>
      StoredAs(after, files, ImageName(prefix, k), images[k], io(ImageName(prefix, k)))
  }

  /** Every file that is not one of the first `n` images' is as it was. */
  ghost predicate KeptOutside(prefix: string, files: FileMap, after: FileMap, n: nat)
  {
    forall name :: !IsOneOfNames(prefix, n, name) ==>
      (name in after <==> name in files) && (name in files ==> after[name] == files[name])
  }

  /**
   * After the first `i` attempts: each of the first `i` images' names holds
   * what its own attempt stored, and every other file is as it was.
   */
  ghost predicate SavedUpTo(prefix: string, images: seq<seq<byte>>, io: string -> IoOutcome,
                            files: FileMap, after: FileMap, i: nat)
    requires i <= |images|
  {
    StoredUpTo(prefix, images, io, files, after, i) && KeptOutside(prefix, files, after, i)
  }

  /** The name of image `i` is none of the names of the images before it. */
  lemma NewName(prefix: string, i: nat)
    ensures !IsOneOfNames(prefix, i, ImageName(prefix, i))
  {
    forall k | 0 <= k < i
      ensures ImageName(prefix, k) != ImageName(prefix, i)
    {
      ImageNameInjective(prefix, k, i);
    }
  }

  /** The attempt on a new name keeps what the earlier attempts stored and adds its own. */
  lemma StoredStep(prefix: string, images: seq<seq<byte>>, io: string -> IoOutcome,
                   files: FileMap, before: FileMap, i: nat, after: FileMap)
    requires i < |images| && SavedUpTo(prefix, images, io, files, before, i)
    requires after == Attempt(before, ImageName(prefix, i), images[i], io(ImageName(prefix, i)))
    ensures StoredUpTo(prefix, images, io, files, after, i + 1)
  {
    var name := ImageName(prefix, i);
    NewName(prefix, i);
    AttemptOnUntouched(before, files, name, images[i], io(name));
    forall k | 0 <= k < i + 1
      ensures StoredAs(after, files, ImageName(prefix, k), images[k], io(ImageName(prefix, k)))
    {
      if k < i {
        assert ImageName(prefix, k) != name;
        AttemptKeepsOthers(before, files, name, images[i], io(name),
                           ImageName(prefix, k), images[k], io(ImageName(prefix, k)));
      }
    }
  }

  /** The attempt on the name of image `i` leaves every name outside the first `i + 1` as it was at the start. */
  lemma KeptStep(prefix: string, images: seq<seq<byte>>, io: string -> IoOutcome,
                 files: FileMap, before: FileMap, i: nat, after: FileMap)
    requires i < |images| && SavedUpTo(prefix, images, io, files, before, i)
    requires after == Attempt(before, ImageName(prefix, i), images[i], io(ImageName(prefix, i)))
    ensures KeptOutside(prefix, files, after, i + 1)
  {
    assert IsOneOfNames(prefix, i + 1, ImageName(prefix, i));
  }

  /** The attempt for image `i` extends what the first `i` attempts did to the first `i + 1`. */
  lemma SaveStep(prefix: string, images: seq<seq<byte>>, io: string -> IoOutcome,
                 files: FileMap, before: FileMap, i: nat)
    requires i < |images| && SavedUpTo(prefix, images, io, files, before, i)
    ensures SavedUpTo(prefix, images, io, files,
                      Attempt(before, ImageName(prefix, i), images[i], io(ImageName(prefix, i))), i + 1)
  {
    var after := Attempt(before, ImageName(prefix, i), images[i], io(ImageName(prefix, i)));
    StoredStep(prefix, images, io, files, before, i, after);
    KeptStep(prefix, images, io, files, before, i, after);
  }

  /**
   * Saves `images` in raw mode. `attempts` lists, in order, the name of each
   * file the loop tried to write: one per image, whatever happened to the
   * others. Every image's name ends up holding what its own attempt stored,
   * and every other file is as it was (`SavedUpTo` for all the images).
   */
  method SaveImagesRaw(prefix: string, images: seq<seq<byte>>, io: string -> IoOutcome, files: FileMap)
    returns (after: FileMap, attempts: seq<string>)
    ensures |attempts| == |images|
    ensures forall k :: 0 <= k < |images| ==> attempts[k] == ImageName(prefix, k)
    ensures SavedUpTo(prefix, images, io, files, after, |images|)
  {
    after, attempts := files, [];
    var i := 0;
    while i < |images|
      invariant i <= |images|
      invariant |attempts| == i
      invariant forall k :: 0 <= k < i ==> attempts[k] == ImageName(prefix, k)
      invariant SavedUpTo(prefix, images, io, files, after, i)
    {
      var name := ImageName(prefix, i);
      SaveStep(prefix, images, io, files, after, i);
      after := Attempt(after, name, images[i], io(name));
      attempts := attempts + [name];
      i := i + 1;
    }
  }
}
