# Image carving from a raw byte buffer

This project models the core of a small Rust tool that recovers embedded PNG,
JPEG and GIF images from an arbitrary binary file. The tool scans the whole
buffer once per format. At each offset it tests for that format's magic
header. At a header it searches for the first terminator at or after the
header (IEND for PNG, EOI for JPEG, `00 3B` for GIF). It records the span from
the header to just past that terminator and resumes scanning at the span's
end. The images of each format are then written, in raw mode, to files named
`<fmt>_image_<i>.<fmt>`, and the total number of images found is returned.

The model is organised like the program:

- `Wrappers`: the `Option` type, Rust's `Option<T>`.
- `Windows`: byte buffers and the one-byte-stride window search (`windows(n).enumerate().find`).
- `Signatures`: the three formats, their header and terminator bytes, and the header test.
- `Scanner`: the reference scan `Carve`, its declarative description `IsCarving`, and the cursor loop `FindImages` of `find_png_images`, `find_jpg_images` and `find_gif_images`, proved to compute `Carve`.
- `Naming`: the decimal index and the file name `format!` builds.
- `Writer`: the raw-mode loop of `save_images`, over a directory modelled as a map from file name to contents.
- `Options`: `get_bool_opt`.
- `Separate`: the three passes of `separating_image`, the count they return, and what the output directory holds afterwards.

The operating system is a parameter. `io(name)` tells whether creating the
file `name` failed, whether writing to it failed after some bytes, or whether
the whole image was written.

Three things the code does that a reader might not expect:

- The PNG and JPEG terminator searches look at every window, advancing one byte at a time (`windows(n)`), not by the pattern's length.
- A header with no terminator after it ends that format's scan (`break`). This loses nothing: scanning on from the next byte would report no span either (`Scanner.BreakSameAsResume`).
- The three passes are independent. No format takes priority over another, and the same bytes may be reported by more than one pass.

## Model

| member | source | states |
|---|---|---|
| Windows.FindWindow | src/main.rs:30-33 | the result is the index of the first window equal to the pattern; no earlier window matches; None means no window matches at all |
| Windows.OccursAtIsMatch | src/main.rs:29 | comparing a window as a slice and comparing it byte by byte agree, in both directions |
| Signatures.MatchHeader | src/main.rs:29 | the literal header test at `i` (PNG signature, FF D8, or GIF89a or GIF87a) is true exactly when a header of the format starts at `i` |
| Signatures.TrailerNotInsideHeader | src/main.rs:30-35 | a terminator at or after a header starts past the header's last byte, so every span is at least header plus terminator long |
| Signatures.HeaderNotInsideTrailer | src/main.rs:35-38 | no header starts strictly inside a terminator |
| Scanner.NextHeader | src/main.rs:27-29 | the first header offset at or after `from`, with no header between `from` and it; None means there is no header after `from` |
| Scanner.NextTrailer | src/main.rs:30-33 | the first terminator offset at or after `from`, with no terminator before it; None means there is none |
| Scanner.GifTrailerSearch | src/main.rs:84-87 | the GIF search as written (windows of width one, each accepted when two bytes remain and they are 00 3B) finds the first GIF terminator at or after its start |
| Scanner.GifSearchIsWindowSearch | src/main.rs:84-87 | the GIF search as written returns exactly what a search of 2-byte windows for 00 3B returns |
| Scanner.FirstTerminator | src/main.rs:30-33 | the terminator search from a header (lines 57-60 and 84-87 for JPEG and GIF) returns the index of the first terminator at or after the header; None means there is none |
| Scanner.FirstTerminatorIsNextTrailer | src/main.rs:30-35 | the relative search and the absolute next-terminator search agree: both None, or the same absolute offset |
| Scanner.CarveIsCarving | src/main.rs:24-49 | the reference scan satisfies the declarative description: each span is a header followed by its first terminator; spans are ordered and separated by header-free gaps; after the last span no header has a terminator |
| Scanner.CarvingIsUnique | src/main.rs:24-49 | any span list meeting that description from an offset is the reference scan from there, so the description determines the result |
| Scanner.CarveProperties | src/main.rs:24-103 | every span is in bounds and at least 16, 4 or 8 bytes long; it starts with a header and ends with the first terminator after its start; the first span starts at the first header; spans are ordered and do not overlap; no header starts between two consecutive spans |
| Scanner.BreakSameAsResume | src/main.rs:42-44 | at a header with no terminator after it the scan reports nothing from there, and would report nothing from the next byte on either, so the `break` loses no span |
| Scanner.UnterminatedHeaderStopsScan | src/main.rs:30-44 | a header with no terminator after it ends the scan: every span ends at or before that header |
| Scanner.CarveCountBound | src/main.rs:35-38 | a scan from `from` reports at most `(len - from) / MinLength` spans |
| Scanner.ShortBufferYieldsNothing | src/main.rs:27 | a buffer shorter than the header, the empty buffer included, yields no spans |
| Scanner.Slices | src/main.rs:37 | one slice per span, holding exactly the bytes `data[start..end]` |
| Scanner.CarveInBounds | src/main.rs:35-37 | every reported span lies within the buffer |
| Scanner.SpanBytesAreFramed | src/main.rs:29-37 | the bytes of a carved span begin with the header, end with the terminator, and hold no earlier terminator |
| Scanner.CarvedImagesAreFramed | src/main.rs:24-103 | each image a scan returns, as bytes, is framed by its format's header and its first terminator |
| Scanner.SearchTerminator | src/main.rs:30-33 | the search the loop runs at a header offset `i` places the next terminator at `i` plus the index it returns, or returns None exactly when no terminator follows |
| Scanner.StepAtTerminatedHeader | src/main.rs:35-38 | at a header whose first terminator starts at `t`, the span to the terminator's end lies inside the buffer (so the `end <= data.len()` test always passes), and appending it and resuming at its end keeps the loop invariant |
| Scanner.StepAtUnterminatedHeader | src/main.rs:42-44 | at a header with no terminator after it, the spans found so far are the whole scan, so the `break` returns the right list |
| Scanner.StepAtNonHeader | src/main.rs:45-47 | stepping one byte past an offset that holds no header keeps the loop invariant |
| Scanner.FindImages | src/main.rs:24-103 | the cursor loop of the three scanners, including the break at an unterminated header and the one-byte step elsewhere, returns exactly the reference scan's spans |
| Naming.Decimal | src/main.rs:108 | the index prints as a non-empty string of decimal digits with no leading zero |
| Naming.DecimalRoundTrip | src/main.rs:108 | reading the printed index back gives the index |
| Naming.DecimalInjective | src/main.rs:108 | two indices print the same exactly when they are equal |
| Naming.ImageName | src/main.rs:108 | a name is the prefix, `_image_`, the decimal index, a dot and the prefix again, at the stated positions, so prefix and index can be read back from it |
| Naming.ImageNameInjective | src/main.rs:107-108 | two images of one format get the same name exactly when they have the same index |
| Naming.ImageNamesOfFormatsDiffer | src/main.rs:175-183 | images of different formats (prefixes of equal length that differ) never share a name |
| Writer.Attempt | src/main.rs:110-125 | after one create-and-write, the name holds the image, or the bytes written before the failure, or what it held before when creation failed; every other name is unchanged |
| Writer.SaveStep | src/main.rs:107-125 | the attempt for image `i` keeps what the earlier attempts stored, since names are distinct, and stores image `i` under its own name |
| Writer.SaveImagesRaw | src/main.rs:105-126 | one attempt per image, in order, under name `i`, whatever happened to the others; each name ends up holding what its own attempt stored; every other file is unchanged |
| Options.GetBoolOpt | src/main.rs:148-158 | an absent flag is false, a bare flag true, and a flag with a value takes that value |
| Options.GetBoolOptOnExactly | src/main.rs:148-158 | the flag is on if and only if it is given bare or as `true`, and off if and only if it is absent or given as `false` |
| Separate.PrefixOf | src/main.rs:175 | each format's prefix and extension (`png`, `jpg`, `gif`, lines 175, 179 and 183) is three letters long |
| Separate.PrefixOfInjective | src/main.rs:175-183 | two formats have the same prefix exactly when they are the same format |
| Separate.NotOtherFormatsName | src/main.rs:175-183 | a name saved for one format is never among another format's image names |
| Separate.ThreeSaves | src/main.rs:173-183 | after the three saves, every image of every format holds what its own attempt stored, because the other formats' saves never touch its name |
| Separate.ThreeFrames | src/main.rs:173-183 | a file that belongs to none of the carved images is as it was after the three saves |
| Separate.SeparateFormat | src/main.rs:173-175 | one pass: the number of images found is the length of the scan for the format, and the directory afterwards is what saving those images under the format's prefix leaves |
| Separate.CountBound | src/main.rs:171-185 | the three scans together report at most one image per byte of the buffer |
| Separate.SeparatingImage | src/main.rs:171-185 | the count is the sum of the three scans' lengths and at most the buffer length, so the `usize` sum cannot overflow; each image's file holds what its attempt stored; all other files are unchanged |

## Left out

- The re-encode branch of `save_images` (src/main.rs:128-143) is not modelled, including its decode, its double save, and the panic of its second save. Decoding and encoding images is done by a foreign library.
- Creating the output directory and reading the input file (src/main.rs:161-169), with their panics on failure, are left out. `Separate.SeparatingImage` takes the buffer as a value.
- The command line, with `structopt`, the debug-build defaults, `catch_unwind`, the pause at the end and logger setup (src/main.rs:13-22, 188-217), is left out. So are the `info!` and `error!` log lines, the `utils.rs` and `config.rs` modules, and logging in general.
- What the operating system does with each file is a parameter (`io`), selected by file name. The model states what each outcome leaves in the directory, not why it happens.
- Writer.Attempt: the output path `output_path.join(name)` is modelled as the bare file name, so every file lands in one output directory.
- Writer.Attempt: a failed `write_all` leaves a prefix of the image whose length `io` chooses. Where in the write the failure happens is not modelled.
- Scanner.FindImages: returns the spans, not borrowed slices. The images' bytes are `Scanner.Slices` of those spans.
- Scanner.FindImages: the `end <= data.len()` test and its `break` (src/main.rs:36-41) are not a branch of the model. `Scanner.StepAtTerminatedHeader` proves that the test always passes.
