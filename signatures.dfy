/**
 * The three container formats the carver recognises, with their magic headers
 * and terminators (src/main.rs lines 29, 33, 56, 60, 83 and 86):
 *   PNG  89 50 4E 47 0D 0A 1A 0A   ...  49 45 4E 44 AE 42 60 82
 *        (the PNG signature and the IEND chunk type with its fixed CRC,
 *         sections 5.2 and 11.2.5 of ISO/IEC 15948)
 *   JPEG FF D8 (SOI)               ...  FF D9 (EOI), ITU-T T.81 Annex B
 *   GIF  "GIF89a" or "GIF87a"      ...  00 3B (a zero block, then the trailer)
 */
module Signatures {
  import opened Windows

  datatype Format = Png | Jpg | Gif

  const PngSignature: seq<byte> := [0x89, 0x50, 0x4E, 0x47, 0x0D, 0x0A, 0x1A, 0x0A]
  const PngTrailer: seq<byte> := [0x49, 0x45, 0x4E, 0x44, 0xAE, 0x42, 0x60, 0x82]
  const JpgSoi: seq<byte> := [0xFF, 0xD8]
  const JpgEoi: seq<byte> := [0xFF, 0xD9]
  /** "GIF89a" and "GIF87a" */
  const Gif89a: seq<byte> := [0x47, 0x49, 0x46, 0x38, 0x39, 0x61]
  const Gif87a: seq<byte> := [0x47, 0x49, 0x46, 0x38, 0x37, 0x61]
  const GifTrailer: seq<byte> := [0x00, 0x3B]

  /** Width of the header test, which is also the scanner's loop bound `i + n <= data.len()`. */
  function HeaderLen(fmt: Format): nat
  {
    match fmt
    case Png => 8
    case Jpg => 2
    case Gif => 6
  }

  /** Width of the terminator; a span ends this many bytes past where its terminator starts. */
  function TrailerLen(fmt: Format): nat
  {
    match fmt
    case Png => 8
    case Jpg => 2
    case Gif => 2
  }

  /** The terminator bytes of `fmt`. */
  function Trailer(fmt: Format): (t: seq<byte>)
    ensures |t| == TrailerLen(fmt)
  {
    match fmt
    case Png => PngTrailer
    case Jpg => JpgEoi
    case Gif => GifTrailer
  }

  /** A header of `fmt` starts at offset `i` of `data`. */
  predicate IsHeaderAt(fmt: Format, data: seq<byte>, i: int)
  {
    && 0 <= i && i + HeaderLen(fmt) <= |data|
    && match fmt
    case Png => Matches(data, PngSignature, i)
    case Jpg => Matches(data, JpgSoi, i)
    case Gif => Matches(data, Gif89a, i) || Matches(data, Gif87a, i)
  }

  /** A terminator of `fmt` starts at offset `j` of `data`. */
  predicate IsTrailerAt(fmt: Format, data: seq<byte>, j: int)
  {
    && 0 <= j && j + TrailerLen(fmt) <= |data|
    && Matches(data, Trailer(fmt), j)
  }

  /**
   * The header test as the scanners write it, `&data[i..i + n] == MAGIC`: a
   * slice of the buffer compared with the magic bytes (either GIF version).
   */
  method MatchHeader(fmt: Format, data: seq<byte>, i: nat) returns (r: bool)
    requires i + HeaderLen(fmt) <= |data|
    ensures r <==> IsHeaderAt(fmt, data, i)
  {
    match fmt
    case Png =>
      OccursAtIsMatch(data, PngSignature, i);
      r := data[i..i + 8] == PngSignature;
    case Jpg =>
      OccursAtIsMatch(data, JpgSoi, i);
      r := data[i..i + 2] == JpgSoi;
    case Gif =>
      OccursAtIsMatch(data, Gif89a, i);
      OccursAtIsMatch(data, Gif87a, i);
      r := data[i..i + 6] == Gif89a || data[i..i + 6] == Gif87a;
  }

  /** The shortest span a scan of `fmt` can produce: a header followed by a terminator. */
  function MinLength(fmt: Format): nat
  {
    match fmt
    case Png => 16
    case Jpg => 4
    case Gif => 8
  }

  /** Every byte of the header of `fmt` at `i` differs from `b`. */
  predicate HeaderAvoids(fmt: Format, data: seq<byte>, i: int, b: byte)
    requires IsHeaderAt(fmt, data, i)
  {
    forall q :: i <= q < i + HeaderLen(fmt) ==> data[q] != b
  }

  /**
   * No byte of a PNG or GIF header is the first byte of that format's
   * terminator; a JPEG header is the two bytes FF D8.
   */
  lemma HeaderBytesAvoid(fmt: Format, data: seq<byte>, i: int)
    requires IsHeaderAt(fmt, data, i)
    ensures HeaderAvoids(fmt, data, i, Trailer(fmt)[0]) || fmt == Jpg
    ensures fmt == Jpg ==> data[i] == 0xFF && data[i + 1] == 0xD8
  {
    forall q | i <= q < i + HeaderLen(fmt)
      ensures fmt != Jpg ==> data[q] != Trailer(fmt)[0]
    {
      match fmt
      case Png => MatchedByte(data, PngSignature, i, 0, q - i);
      case Jpg =>
      case Gif =>
        if Matches(data, Gif89a, i) {
          MatchedByte(data, Gif89a, i, 0, q - i);
        } else {
          MatchedByte(data, Gif87a, i, 0, q - i);
        }
    }
    if fmt == Jpg {
      MatchedByte(data, JpgSoi, i, 0, 0);
      MatchedByte(data, JpgSoi, i, 0, 1);
    }
  }

  /**
   * No terminator starts inside a header: the first terminator at or after a
   * header lies past the header's last byte.
   */
  lemma TrailerNotInsideHeader(fmt: Format, data: seq<byte>, i: int, j: int)
    requires IsHeaderAt(fmt, data, i) && IsTrailerAt(fmt, data, j) && i <= j
    ensures i + HeaderLen(fmt) <= j
  {
    HeaderBytesAvoid(fmt, data, i);
    MatchedByte(data, Trailer(fmt), j, 0, 0);
    MatchedByte(data, Trailer(fmt), j, 0, 1);
  }

  /** The first byte of a header of `fmt` at `p`. */
  lemma HeaderFirstByte(fmt: Format, data: seq<byte>, p: int)
    requires IsHeaderAt(fmt, data, p)
    ensures data[p] == (match fmt case Png => 0x89 case Jpg => 0xFF case Gif => 0x47)
  {
    match fmt
    case Png => MatchedByte(data, PngSignature, p, 0, 0);
    case Jpg => MatchedByte(data, JpgSoi, p, 0, 0);
    case Gif =>
      if Matches(data, Gif89a, p) {
        MatchedByte(data, Gif89a, p, 0, 0);
      } else {
        MatchedByte(data, Gif87a, p, 0, 0);
      }
  }

  /**
   * No header starts strictly inside a terminator, so a span that ends with a
   * terminator before a header ends at or before that header.
   */
  lemma HeaderNotInsideTrailer(fmt: Format, data: seq<byte>, j: int, p: int)
    requires IsTrailerAt(fmt, data, j) && IsHeaderAt(fmt, data, p) && j < p
    ensures j + TrailerLen(fmt) <= p
  {
    HeaderFirstByte(fmt, data, p);
    forall q | j < q < j + TrailerLen(fmt)
      ensures data[q] != (match fmt case Png => 0x89 case Jpg => 0xFF case Gif => 0x47)
    {
      MatchedByte(data, Trailer(fmt), j, 0, q - j);
    }
  }
}
