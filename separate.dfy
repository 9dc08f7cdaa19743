/**
 * The part of `separating_image` (src/main.rs:160-186) that follows reading
 * the input: carve the buffer for PNG, then JPEG, then GIF images, add each
 * list's length to the count, and save each list in raw mode under the
 * prefixes "png", "jpg" and "gif".
 */
module Separate {
  import opened Windows
  import opened Signatures
  import opened Scanner
  import opened Naming
  import opened Writer

  /** The prefix and extension each format's images are saved under: three letters. */
  function PrefixOf(fmt: Format): (p: string)
    ensures |p| == 3
  {
    match fmt
    case Png => "png"
    case Jpg => "jpg"
    case Gif => "gif"
  }

  /** The bytes of the images a scan of `buffer` for `fmt` reports, in order. */
  function CarvedImages(fmt: Format, buffer: seq<byte>): (images: seq<seq<byte>>)
    ensures |images| == |Carve(fmt, buffer, 0)|
  {
    CarveInBounds(fmt, buffer);
    Slices(buffer, Carve(fmt, buffer, 0))
  }

  /** `name` holds the same thing, or is missing, in both directories. */
  ghost predicate SameAt(a: FileMap, b: FileMap, name: string)
  {
    (name in a <==> name in b) && (name in a ==> a[name] == b[name])
  }

  /** `name` is the file of one of the images carved for `fmt`. */
  ghost predicate IsSavedName(fmt: Format, buffer: seq<byte>, name: string)
  {
    IsOneOfNames(PrefixOf(fmt), |Carve(fmt, buffer, 0)|, name)
  }

  /** Saving one format's images: the contract of `SaveImagesRaw`, from `before` to `after`. */
  ghost predicate SavedFormat(fmt: Format, buffer: seq<byte>, io: string -> IoOutcome, before: FileMap, after: FileMap)
  {
    SavedUpTo(PrefixOf(fmt), CarvedImages(fmt, buffer), io, before, after, |CarvedImages(fmt, buffer)|)
  }

  /** What `SaveImagesRaw` promises for the spans a scan returned is `SavedFormat`. */
  lemma SaveIsSavedFormat(fmt: Format, buffer: seq<byte>, io: string -> IoOutcome, before: FileMap, after: FileMap,
                          spans: seq<Span>)
    requires spans == Carve(fmt, buffer, 0) && InBounds(buffer, spans)
    requires SavedUpTo(PrefixOf(fmt), Slices(buffer, spans), io, before, after, |spans|)
    ensures SavedFormat(fmt, buffer, io, before, after)
  {
  }

  /** Each format has its own prefix. */
  lemma PrefixOfInjective(f: Format, g: Format)
    ensures PrefixOf(f) == PrefixOf(g) <==> f == g
  {
    assert PrefixOf(f)[0] == PrefixOf(g)[0] ==> f == g;
  }

  /** No image name of one format is an image name of another. */
  lemma NotOtherFormatsName(f: Format, g: Format, buffer: seq<byte>, k: nat)
    requires f != g
    ensures !IsSavedName(g, buffer, ImageName(PrefixOf(f), k))
  {
    PrefixOfInjective(f, g);
    forall j: nat
      ensures ImageName(PrefixOf(f), k) != ImageName(PrefixOf(g), j)
    {
      ImageNamesOfFormatsDiffer(PrefixOf(f), PrefixOf(g), k, j);
    }
  }

  /** Saving one format stores each of its images under its own name. */
  lemma StoredBySave(fmt: Format, buffer: seq<byte>, io: string -> IoOutcome, before: FileMap, after: FileMap, k: nat)
    requires SavedFormat(fmt, buffer, io, before, after) && k < |Carve(fmt, buffer, 0)|
    ensures StoredAs(after, before, ImageName(PrefixOf(fmt), k), CarvedImages(fmt, buffer)[k],
                     io(ImageName(PrefixOf(fmt), k)))
  {
  }

  /** Saving one format leaves every name that is not one of its images' alone. */
  lemma FrameOfSave(fmt: Format, buffer: seq<byte>, io: string -> IoOutcome, before: FileMap, after: FileMap, name: string)
    requires SavedFormat(fmt, buffer, io, before, after) && !IsSavedName(fmt, buffer, name)
    ensures SameAt(after, before, name)
  {
  }

  /** What an attempt stored stays stored while later steps leave the name alone. */
  lemma StoredThenKept(files: FileMap, mid: FileMap, after: FileMap, name: string, d: seq<byte>, o: IoOutcome)
    requires StoredAs(mid, files, name, d, o) && SameAt(after, mid, name)
    ensures StoredAs(after, files, name, d, o)
  {
  }

  /** An attempt on a name earlier steps left alone stores relative to the start. */
  lemma KeptThenStored(files: FileMap, mid: FileMap, after: FileMap, name: string, d: seq<byte>, o: IoOutcome)
    requires SameAt(mid, files, name) && StoredAs(after, mid, name, d, o)
    ensures StoredAs(after, files, name, d, o)
  {
  }

  /**
   * The three saves one after another: every image of every format ends up
   * stored under its own name as its own attempt left it, because the saves
   * of the other two formats never touch that name.
   */
  lemma ThreeSaves(buffer: seq<byte>, io: string -> IoOutcome, files: FileMap, f1: FileMap, f2: FileMap, f3: FileMap,
                   fmt: Format, k: nat)
    requires SavedFormat(Png, buffer, io, files, f1)
    requires SavedFormat(Jpg, buffer, io, f1, f2)
    requires SavedFormat(Gif, buffer, io, f2, f3)
    requires k < |Carve(fmt, buffer, 0)|
    ensures StoredAs(f3, files, ImageName(PrefixOf(fmt), k), CarvedImages(fmt, buffer)[k],
                     io(ImageName(PrefixOf(fmt), k)))
  {
    var name := ImageName(PrefixOf(fmt), k);
    var d := CarvedImages(fmt, buffer)[k];
    match fmt
    case Png =>
      StoredBySave(Png, buffer, io, files, f1, k);
      NotOtherFormatsName(Png, Jpg, buffer, k);
      FrameOfSave(Jpg, buffer, io, f1, f2, name);
      StoredThenKept(files, f1, f2, name, d, io(name));
      NotOtherFormatsName(Png, Gif, buffer, k);
      FrameOfSave(Gif, buffer, io, f2, f3, name);
      StoredThenKept(files, f2, f3, name, d, io(name));
    case Jpg =>
      NotOtherFormatsName(Jpg, Png, buffer, k);
      FrameOfSave(Png, buffer, io, files, f1, name);
      StoredBySave(Jpg, buffer, io, f1, f2, k);
      KeptThenStored(files, f1, f2, name, d, io(name));
      NotOtherFormatsName(Jpg, Gif, buffer, k);
      FrameOfSave(Gif, buffer, io, f2, f3, name);
      StoredThenKept(files, f2, f3, name, d, io(name));
    case Gif =>
      NotOtherFormatsName(Gif, Png, buffer, k);
      FrameOfSave(Png, buffer, io, files, f1, name);
      NotOtherFormatsName(Gif, Jpg, buffer, k);
      FrameOfSave(Jpg, buffer, io, f1, f2, name);
      StoredBySave(Gif, buffer, io, f2, f3, k);
      KeptThenStored(f1, f2, f3, name, d, io(name));
      KeptThenStored(files, f1, f3, name, d, io(name));
  }

  /** No save touches a name that is none of the carved images'. */
  lemma ThreeFrames(buffer: seq<byte>, io: string -> IoOutcome, files: FileMap, f1: FileMap, f2: FileMap, f3: FileMap,
                    name: string)
    requires SavedFormat(Png, buffer, io, files, f1)
    requires SavedFormat(Jpg, buffer, io, f1, f2)
    requires SavedFormat(Gif, buffer, io, f2, f3)
    requires !IsSavedName(Png, buffer, name) && !IsSavedName(Jpg, buffer, name) && !IsSavedName(Gif, buffer, name)
    ensures SameAt(f3, files, name)
  {
    FrameOfSave(Png, buffer, io, files, f1, name);
    FrameOfSave(Jpg, buffer, io, f1, f2, name);
    FrameOfSave(Gif, buffer, io, f2, f3, name);
  }

  /** Together the three scans report at most one image per byte of the buffer. */
  lemma CountBound(buffer: seq<byte>)
    ensures |Carve(Png, buffer, 0)| + |Carve(Jpg, buffer, 0)| + |Carve(Gif, buffer, 0)| <= |buffer|
  {
    var a, b, c := |Carve(Png, buffer, 0)|, |Carve(Jpg, buffer, 0)|, |Carve(Gif, buffer, 0)|;
    CarveCountBound(Png, buffer, 0);
    CarveCountBound(Jpg, buffer, 0);
    CarveCountBound(Gif, buffer, 0);
    assert a * 16 <= |buffer| && b * 4 <= |buffer| && c * 8 <= |buffer|;
  }

  /**
   * One of the three passes: carve `buffer` for `fmt` and save the images in
   * raw mode under the format's prefix; `n` is how many were found.
   */
  method SeparateFormat(fmt: Format, buffer: seq<byte>, io: string -> IoOutcome, files: FileMap)
    returns (n: nat, after: FileMap)
    ensures n == |Carve(fmt, buffer, 0)|
    ensures SavedFormat(fmt, buffer, io, files, after)
  {
    var images := FindImages(fmt, buffer);
    n := |images|;
    CarveInBounds(fmt, buffer);
    var attempts;
    after, attempts := SaveImagesRaw(PrefixOf(fmt), Slices(buffer, images), io, files);
    SaveIsSavedFormat(fmt, buffer, io, files, after, images);
  }

  /**
   * Carves `buffer` for the three formats in turn and saves each list in raw
   * mode, returning how many images were found and the output directory
   * after the saves. The count is the sum of the three list lengths and never
   * exceeds the buffer length, so the source's `usize` sum cannot overflow.
   */
  method SeparatingImage(buffer: seq<byte>, io: string -> IoOutcome, files: FileMap)
    returns (count: nat, after: FileMap)
    ensures count == |Carve(Png, buffer, 0)| + |Carve(Jpg, buffer, 0)| + |Carve(Gif, buffer, 0)|
    ensures count <= |buffer|
    ensures forall fmt: Format, k :: 0 <= k < |Carve(fmt, buffer, 0)| ==>
              StoredAs(after, files, ImageName(PrefixOf(fmt), k), CarvedImages(fmt, buffer)[k],
                       io(ImageName(PrefixOf(fmt), k)))
    ensures forall name ::
              !IsSavedName(Png, buffer, name) && !IsSavedName(Jpg, buffer, name) && !IsSavedName(Gif, buffer, name)
              ==> SameAt(after, files, name)
  {
    count := 0;
    var n, f1, f2, f3;
    n, f1 := SeparateFormat(Png, buffer, io, files);
    count := count + n;
    n, f2 := SeparateFormat(Jpg, buffer, io, f1);
    count := count + n;
    n, f3 := SeparateFormat(Gif, buffer, io, f2);
    count := count + n;
    after := f3;

    CountBound(buffer);
    forall fmt: Format, k | 0 <= k < |Carve(fmt, buffer, 0)|
      ensures StoredAs(after, files, ImageName(PrefixOf(fmt), k), CarvedImages(fmt, buffer)[k],
                       io(ImageName(PrefixOf(fmt), k)))
    {
      ThreeSaves(buffer, io, files, f1, f2, f3, fmt, k);
    }
    forall name | !IsSavedName(Png, buffer, name) && !IsSavedName(Jpg, buffer, name) && !IsSavedName(Gif, buffer, name)
      ensures SameAt(after, files, name)
    {
      ThreeFrames(buffer, io, files, f1, f2, f3, name);
    }
  }
}
