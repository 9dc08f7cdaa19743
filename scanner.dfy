/**
 * The per-format carving scanners `find_png_images`, `find_jpg_images` and
 * `find_gif_images` of src/main.rs. Each walks the buffer with a cursor `i`:
 * where a header starts at `i`, it searches for the first terminator at or
 * after `i`, records the span from the header to just past that terminator and
 * jumps to its end; where no header starts, it steps one byte; where a header
 * has no terminator at all, the whole scan stops.
 *
 * `Carve` is the reference definition (hop to the next header, then to the
 * first terminator), `IsCarving` the declarative description of a scan's
 * result; the lemmas show that the two determine each other, and `FindImages`
 * is the cursor loop proved to compute `Carve`.
 */
module Scanner {
  import opened Wrappers
  import opened Windows
  import opened Signatures

  /** A carved image: the bytes `[start, end)` of the scanned buffer. */
  datatype Span = Span(start: nat, end: nat)

  /** The first offset at or after `from` where a header of `fmt` starts. */
  function NextHeader(fmt: Format, data: seq<byte>, from: nat): (r: Option<nat>)
    decreases |data| - from
    ensures r.Some? ==> from <= r.value && IsHeaderAt(fmt, data, r.value)
    ensures forall q :: from <= q && (r.None? || q < r.value) ==> !IsHeaderAt(fmt, data, q)
  {
    if from + HeaderLen(fmt) > |data| then None
    else if IsHeaderAt(fmt, data, from) then Some(from)
    else NextHeader(fmt, data, from + 1)
  }

  /** The first offset at or after `from` where a terminator of `fmt` starts. */
  function NextTrailer(fmt: Format, data: seq<byte>, from: nat): (r: Option<nat>)
    decreases |data| - from
    ensures r.Some? ==> from <= r.value && IsTrailerAt(fmt, data, r.value)
    ensures forall j :: from <= j && (r.None? || j < r.value) ==> !IsTrailerAt(fmt, data, j)
  {
    if from + TrailerLen(fmt) > |data| then None
    else if IsTrailerAt(fmt, data, from) then Some(from)
    else NextTrailer(fmt, data, from + 1)
  }

  /**
   * The GIF terminator search exactly as written (src/main.rs:84-87): windows
   * of width one over `data[i..]`, each accepted when at least two bytes remain
   * at its absolute offset and those two bytes are `00 3B`. The result is the
   * window index, relative to `i`.
   */
  function GifTrailerSearch(data: seq<byte>, i: nat, idx: nat): (r: Option<nat>)
    requires i <= |data|
    decreases |data| - i - idx
    ensures r.Some? ==> idx <= r.value && IsTrailerAt(Gif, data, i + r.value)
    ensures forall j :: i + idx <= j && (r.None? || j < i + r.value) ==> !IsTrailerAt(Gif, data, j)
  {
    if i + idx >= |data| then None
    else if |data[i + idx..]| >= 2 && data[i + idx..i + idx + 2] == GifTrailer then Some(idx)
    else GifTrailerSearch(data, i, idx + 1)
  }

  /**
   * The terminator search started at a header offset `i`: the index, relative
   * to `i`, of the first terminator of `fmt` at or after `i`.
   */
  function FirstTerminator(fmt: Format, data: seq<byte>, i: nat): (r: Option<nat>)
    requires i <= |data|
    ensures r.Some? ==> IsTrailerAt(fmt, data, i + r.value)
    ensures forall j :: i <= j && (r.None? || j < i + r.value) ==> !IsTrailerAt(fmt, data, j)
  {
    match fmt
    case Gif => GifTrailerSearch(data, i, 0)
    case _ =>
      OccursInSuffix(data, Trailer(fmt), i);
      TrailerIsOccurrence(fmt, data);
      FindWindow(data[i..], Trailer(fmt))
  }

  /** The source's relative search and the reference search find the same terminator. */
  lemma FirstTerminatorIsNextTrailer(fmt: Format, data: seq<byte>, i: nat)
    requires i <= |data|
    ensures FirstTerminator(fmt, data, i).None? <==> NextTrailer(fmt, data, i).None?
    ensures FirstTerminator(fmt, data, i).Some? ==>
              NextTrailer(fmt, data, i) == Some(i + FirstTerminator(fmt, data, i).value)
  {
    var r := FirstTerminator(fmt, data, i);
    var n := NextTrailer(fmt, data, i);
    if r.Some? {
      assert IsTrailerAt(fmt, data, i + r.value);
      assert n.Some?;
      assert !(n.value < i + r.value);
      assert !(i + r.value < n.value);
    }
  }

  /** A terminator is an occurrence of the terminator bytes, as the slice comparisons test. */
  lemma TrailerIsOccurrence(fmt: Format, data: seq<byte>)
    ensures forall j :: IsTrailerAt(fmt, data, j) <==> OccursAt(data, Trailer(fmt), j)
  {
    forall j
      ensures IsTrailerAt(fmt, data, j) <==> OccursAt(data, Trailer(fmt), j)
    {
      OccursAtIsMatch(data, Trailer(fmt), j);
    }
  }

  /** The literal GIF search finds what a search of 2-byte windows over `data[i..]` finds. */
  lemma {:induction false} GifSearchIsWindowSearch(data: seq<byte>, i: nat, idx: nat)
    requires i <= |data|
    decreases |data| - i - idx
    ensures GifTrailerSearch(data, i, idx) == FindWindowFrom(data[i..], GifTrailer, idx)
  {
    var s := data[i..];
    if i + idx < |data| {
      if idx + 2 <= |s| {
        assert s[idx..idx + 2] == data[i + idx..i + idx + 2];
      }
      if !(|data[i + idx..]| >= 2 && data[i + idx..i + idx + 2] == GifTrailer) {
        GifSearchIsWindowSearch(data, i, idx + 1);
      }
    }
  }

  /**
   * The reference scan from `from`: the next header, then the first terminator
   * after it; the span ends just past the terminator and scanning resumes
   * there. A header without a terminator ends the scan.
   */
  function Carve(fmt: Format, data: seq<byte>, from: nat): seq<Span>
    requires from <= |data|
    decreases |data| - from
  {
    var h := NextHeader(fmt, data, from);
    if h.None? then []
    else
      var t := NextTrailer(fmt, data, h.value);
      if t.None? then []
      else
        var e := t.value + TrailerLen(fmt);
        [Span(h.value, e)] + Carve(fmt, data, e)
  }

  /** No header of `fmt` starts at an offset in `[lo, hi)`. */
  ghost predicate NoHeaderIn(fmt: Format, data: seq<byte>, lo: int, hi: int)
  {
    forall q :: lo <= q < hi ==> !IsHeaderAt(fmt, data, q)
  }

  /** No terminator of `fmt` starts at an offset in `[lo, hi)`. */
  ghost predicate NoTrailerIn(fmt: Format, data: seq<byte>, lo: int, hi: int)
  {
    forall j :: lo <= j < hi ==> !IsTrailerAt(fmt, data, j)
  }

  /**
   * A span a scan of `fmt` may report: it lies in the buffer, starts with a
   * header, ends with a terminator, is at least a header plus a terminator long,
   * and its terminator is the first one at or after its start.
   */
  ghost predicate IsCarvedSpan(fmt: Format, data: seq<byte>, sp: Span)
  {
    && sp.start + MinLength(fmt) <= sp.end <= |data|
    && IsHeaderAt(fmt, data, sp.start)
    && IsTrailerAt(fmt, data, sp.end - TrailerLen(fmt))
    && NoTrailerIn(fmt, data, sp.start, sp.end - TrailerLen(fmt))
  }

  /**
   * `ss` describes the result of scanning `data` for `fmt` from `from`: the
   * first span is a carved span starting at the first header at or after
   * `from`, and the rest describe the scan from its end; when no span is left,
   * the first remaining header (if any) has no terminator after it.
   */
  ghost predicate IsCarving(fmt: Format, data: seq<byte>, from: nat, ss: seq<Span>)
    decreases |ss|
  {
    if ss == [] then
      && from <= |data|
      && (forall p :: from <= p && IsHeaderAt(fmt, data, p) && NoHeaderIn(fmt, data, from, p)
            ==> NoTrailerIn(fmt, data, p, |data|))
    else
      && IsCarvedSpan(fmt, data, ss[0])
      && from <= ss[0].start
      && NoHeaderIn(fmt, data, from, ss[0].start)
      && IsCarving(fmt, data, ss[0].end, ss[1..])
  }

  /** A header at `p` with none between `from` and `p` is the next header from `from`. */
  lemma NextHeaderIs(fmt: Format, data: seq<byte>, from: nat, p: nat)
    requires from <= p && IsHeaderAt(fmt, data, p) && NoHeaderIn(fmt, data, from, p)
    ensures NextHeader(fmt, data, from) == Some(p)
  {
    var r := NextHeader(fmt, data, from);
    assert r.Some?;
    assert !(r.value < p);
  }

  /** A terminator at `j` with none between `from` and `j` is the next terminator from `from`. */
  lemma NextTrailerIs(fmt: Format, data: seq<byte>, from: nat, j: nat)
    requires from <= j && IsTrailerAt(fmt, data, j) && NoTrailerIn(fmt, data, from, j)
    ensures NextTrailer(fmt, data, from) == Some(j)
  {
    var r := NextTrailer(fmt, data, from);
    assert r.Some?;
    assert !(r.value < j);
  }

  /** The reference scan meets the declarative description. */
  lemma {:induction false} CarveIsCarving(fmt: Format, data: seq<byte>, from: nat)
    requires from <= |data|
    decreases |data| - from
    ensures IsCarving(fmt, data, from, Carve(fmt, data, from))
  {
    var h := NextHeader(fmt, data, from);
    if h.None? {
      assert Carve(fmt, data, from) == [];
    } else {
      var s := h.value;
      var t := NextTrailer(fmt, data, s);
      if t.None? {
        assert Carve(fmt, data, from) == [];
        forall p | from <= p && IsHeaderAt(fmt, data, p) && NoHeaderIn(fmt, data, from, p)
          ensures NoTrailerIn(fmt, data, p, |data|)
        {
          assert !(s < p) && !(p < s);
        }
      } else {
        var e := t.value + TrailerLen(fmt);
        TrailerNotInsideHeader(fmt, data, s, t.value);
        CarveStep(fmt, data, from, s, e);
        CarveIsCarving(fmt, data, e);
        assert IsCarvedSpan(fmt, data, Span(s, e));
        HeadAndTail(Carve(fmt, data, from));
      }
    }
  }

  /** One step of the reference scan: the next header at `s`, the span up to `e` past its first terminator. */
  lemma CarveStep(fmt: Format, data: seq<byte>, from: nat, s: nat, e: nat)
    requires from <= |data| && TrailerLen(fmt) <= e
    requires NextHeader(fmt, data, from) == Some(s) && NextTrailer(fmt, data, s) == Some(e - TrailerLen(fmt))
    ensures e <= |data|
    ensures Carve(fmt, data, from) == [Span(s, e)] + Carve(fmt, data, e)
  {
  }

  /** A scan whose description is empty carves nothing. */
  lemma EmptyCarvingIsEmpty(fmt: Format, data: seq<byte>, from: nat)
    requires IsCarving(fmt, data, from, [])
    ensures from <= |data| && Carve(fmt, data, from) == []
  {
    var h := NextHeader(fmt, data, from);
    if h.Some? {
      assert NoTrailerIn(fmt, data, h.value, |data|);
      assert NextTrailer(fmt, data, h.value).None?;
    }
  }

  /** The first span of a description is the reference scan's first step. */
  lemma CarvingHead(fmt: Format, data: seq<byte>, from: nat, ss: seq<Span>)
    requires IsCarving(fmt, data, from, ss) && ss != []
    ensures from <= ss[0].end <= |data|
    ensures Carve(fmt, data, from) == [ss[0]] + Carve(fmt, data, ss[0].end)
  {
    var sp := ss[0];
    NextHeaderIs(fmt, data, from, sp.start);
    NextTrailerIs(fmt, data, sp.start, sp.end - TrailerLen(fmt));
    CarveStep(fmt, data, from, sp.start, sp.end);
    assert sp == Span(sp.start, sp.end);
  }

  /** The declarative description fits exactly one sequence of spans: the reference scan's. */
  lemma {:induction false} CarvingIsUnique(fmt: Format, data: seq<byte>, from: nat, ss: seq<Span>)
    requires IsCarving(fmt, data, from, ss)
    decreases |ss|
    ensures from <= |data| && ss == Carve(fmt, data, from)
  {
    if ss == [] {
      EmptyCarvingIsEmpty(fmt, data, from);
    } else {
      CarvingHead(fmt, data, from, ss);
      CarvingIsUnique(fmt, data, ss[0].end, ss[1..]);
      HeadAndTail(ss);
    }
  }

  /** Span `k` of a carving is a carved span, and it ends before span `k + 1` with no header between. */
  lemma {:induction false} CarvingAt(fmt: Format, data: seq<byte>, from: nat, ss: seq<Span>, k: nat)
    requires IsCarving(fmt, data, from, ss) && k < |ss|
    decreases k
    ensures IsCarvedSpan(fmt, data, ss[k])
    ensures k == 0 ==> from <= ss[0].start && NoHeaderIn(fmt, data, from, ss[0].start)
    ensures k + 1 < |ss| ==> ss[k].end <= ss[k + 1].start && NoHeaderIn(fmt, data, ss[k].end, ss[k + 1].start)
  {
    if k > 0 {
      CarvingAt(fmt, data, ss[0].end, ss[1..], k - 1);
      assert ss[1..][k - 1] == ss[k];
      if k + 1 < |ss| {
        assert ss[1..][k] == ss[k + 1];
      }
    } else if 1 < |ss| {
      assert ss[1..][0] == ss[1];
    }
  }

  /** `CarvingAt` for the reference scan of a whole buffer. */
  lemma CarveAt(fmt: Format, data: seq<byte>, k: nat)
    requires k < |Carve(fmt, data, 0)|
    ensures IsCarvedSpan(fmt, data, Carve(fmt, data, 0)[k])
    ensures k == 0 ==> NoHeaderIn(fmt, data, 0, Carve(fmt, data, 0)[0].start)
    ensures k + 1 < |Carve(fmt, data, 0)| ==>
              && Carve(fmt, data, 0)[k].end <= Carve(fmt, data, 0)[k + 1].start
              && NoHeaderIn(fmt, data, Carve(fmt, data, 0)[k].end, Carve(fmt, data, 0)[k + 1].start)
  {
    CarveIsCarving(fmt, data, 0);
    CarvingAt(fmt, data, 0, Carve(fmt, data, 0), k);
  }

  /**
   * The properties of one scan spelled out: every span `[s, e)` lies in the
   * buffer and is at least a header plus a terminator long (16 bytes for PNG,
   * 4 for JPEG, 8 for GIF); it starts with a header and ends with a terminator
   * that is the first at or after `s`; spans are in increasing order and do not
   * overlap; the first span starts at the first header of the buffer, and no
   * header starts between two consecutive spans.
   */
  lemma CarveProperties(fmt: Format, data: seq<byte>, k: nat)
    requires k < |Carve(fmt, data, 0)|
    ensures var sp := Carve(fmt, data, 0)[k];
              && sp.start + MinLength(fmt) <= sp.end <= |data|
              && IsHeaderAt(fmt, data, sp.start)
              && IsTrailerAt(fmt, data, sp.end - TrailerLen(fmt))
              && (forall j :: sp.start <= j < sp.end - TrailerLen(fmt) ==> !IsTrailerAt(fmt, data, j))
    ensures k == 0 ==> NextHeader(fmt, data, 0) == Some(Carve(fmt, data, 0)[0].start)
    ensures k + 1 < |Carve(fmt, data, 0)| ==>
              && Carve(fmt, data, 0)[k].end <= Carve(fmt, data, 0)[k + 1].start
              && (forall q :: Carve(fmt, data, 0)[k].end <= q < Carve(fmt, data, 0)[k + 1].start
                    ==> !IsHeaderAt(fmt, data, q))
  {
    var ss := Carve(fmt, data, 0);
    CarveAt(fmt, data, k);
    if k == 0 {
      NextHeaderIs(fmt, data, 0, ss[0].start);
    }
  }

  /**
   * A header at `p` with no terminator anywhere after it stops the scan there:
   * every reported span ends at or before `p`, so no later header is reported.
   */
  lemma UnterminatedHeaderStopsScan(fmt: Format, data: seq<byte>, p: nat, k: nat)
    requires IsHeaderAt(fmt, data, p)
    requires NextTrailer(fmt, data, p) == None
    requires k < |Carve(fmt, data, 0)|
    ensures Carve(fmt, data, 0)[k].end <= p
  {
    var ss := Carve(fmt, data, 0);
    CarveAt(fmt, data, k);
    var j := ss[k].end - TrailerLen(fmt);
    assert IsTrailerAt(fmt, data, j);
    HeaderNotInsideTrailer(fmt, data, j, p);
  }

  /**
   * Breaking out of the scan at a header with no terminator after it loses
   * nothing: scanning on from the next byte would report no span either, since
   * every later header would need a terminator after that same header.
   */
  lemma BreakSameAsResume(fmt: Format, data: seq<byte>, p: nat)
    requires IsHeaderAt(fmt, data, p) && NextTrailer(fmt, data, p).None?
    ensures Carve(fmt, data, p) == []
    ensures p + 1 <= |data| && Carve(fmt, data, p + 1) == []
  {
    assert NextHeader(fmt, data, p) == Some(p);
  }

  /**
   * Spans are disjoint and each is at least `MinLength(fmt)` bytes, so a scan
   * from `from` reports at most `(|data| - from) / MinLength(fmt)` of them.
   */
  lemma {:induction false} CarveCountBound(fmt: Format, data: seq<byte>, from: nat)
    requires from <= |data|
    decreases |data| - from
    ensures |Carve(fmt, data, from)| * MinLength(fmt) <= |data| - from
  {
    var h := NextHeader(fmt, data, from);
    if h.Some? {
      var t := NextTrailer(fmt, data, h.value);
      if t.Some? {
        var e := t.value + TrailerLen(fmt);
        TrailerNotInsideHeader(fmt, data, h.value, t.value);
        CarveStep(fmt, data, from, h.value, e);
        CarveCountBound(fmt, data, e);
        assert MinLength(fmt) == HeaderLen(fmt) + TrailerLen(fmt);
        MulStep(|Carve(fmt, data, e)|, MinLength(fmt));
      }
    }
  }

  /** One more span adds one more minimum length. */
  lemma MulStep(n: nat, m: nat)
    ensures (n + 1) * m == n * m + m
  {
  }

  /** A buffer shorter than the header, the empty buffer included, yields no spans. */
  lemma ShortBufferYieldsNothing(fmt: Format, data: seq<byte>)
    requires |data| < HeaderLen(fmt)
    ensures Carve(fmt, data, 0) == []
  {
    assert NextHeader(fmt, data, 0) == None;
  }

  /** The spans of a scan lie inside the buffer. */
  ghost predicate InBounds(data: seq<byte>, ss: seq<Span>)
  {
    forall k :: 0 <= k < |ss| ==> ss[k].start <= ss[k].end <= |data|
  }

  /** The bytes of each span, `&data[start..end]`. */
  function Slices(data: seq<byte>, ss: seq<Span>): (images: seq<seq<byte>>)
    requires InBounds(data, ss)
    ensures |images| == |ss|
    ensures forall k :: 0 <= k < |ss| ==> images[k] == data[ss[k].start..ss[k].end]
  {
    if ss == [] then [] else [data[ss[0].start..ss[0].end]] + Slices(data, ss[1..])
  }

  /** Every span of a scan lies inside the buffer, so its bytes can be sliced out. */
  lemma CarveInBounds(fmt: Format, data: seq<byte>)
    ensures InBounds(data, Carve(fmt, data, 0))
  {
    var ss := Carve(fmt, data, 0);

    forall k | 0 <= k < |ss|
      ensures ss[k].start <= ss[k].end <= |data|
    {
      CarveAt(fmt, data, k);
    }
  }

  /**
   * An image as the carver writes it: at least a header plus a terminator
   * long, beginning with the header of its format, ending with its terminator,
   * and holding no other terminator before that one.
   */
  ghost predicate IsFramedImage(fmt: Format, img: seq<byte>)
  {
    && |img| >= MinLength(fmt)
    && IsHeaderAt(fmt, img, 0)
    && IsTrailerAt(fmt, img, |img| - TrailerLen(fmt))
    && NoTrailerIn(fmt, img, 0, |img| - TrailerLen(fmt))
  }

  /** The bytes of a carved span form a framed image. */
  lemma SpanBytesAreFramed(fmt: Format, data: seq<byte>, sp: Span)
    requires IsCarvedSpan(fmt, data, sp)
    ensures IsFramedImage(fmt, data[sp.start..sp.end])
  {
    var img := data[sp.start..sp.end];
    assert |img| == sp.end - sp.start;
    HeaderInSlice(fmt, data, sp.start, sp.end, sp.start);
    assert IsHeaderAt(fmt, img, 0);
    TrailerInSlice(fmt, data, sp.start, sp.end, sp.end - TrailerLen(fmt));
    assert IsTrailerAt(fmt, img, |img| - TrailerLen(fmt));
    NoTrailerInSlice(fmt, data, sp.start, sp.end);
  }

  /** A stretch without terminators stays one when cut out of the buffer. */
  lemma NoTrailerInSlice(fmt: Format, data: seq<byte>, lo: nat, hi: nat)
    requires lo + TrailerLen(fmt) <= hi <= |data|
    requires NoTrailerIn(fmt, data, lo, hi - TrailerLen(fmt))
    ensures NoTrailerIn(fmt, data[lo..hi], 0, hi - lo - TrailerLen(fmt))
  {
    forall j | 0 <= j < hi - lo - TrailerLen(fmt)
      ensures !IsTrailerAt(fmt, data[lo..hi], j)
    {
      TrailerInSlice(fmt, data, lo, hi, lo + j);
    }
  }

  /** A header inside `[lo, hi)` is a header of `data[lo..hi]` at the shifted offset, and conversely. */
  lemma HeaderInSlice(fmt: Format, data: seq<byte>, lo: nat, hi: nat, p: nat)
    requires lo <= p && p + HeaderLen(fmt) <= hi <= |data|
    ensures IsHeaderAt(fmt, data[lo..hi], p - lo) <==> IsHeaderAt(fmt, data, p)
  {
    match fmt
    case Png => MatchesInSlice(data, PngSignature, lo, hi, p);
    case Jpg => MatchesInSlice(data, JpgSoi, lo, hi, p);
    case Gif =>
      MatchesInSlice(data, Gif89a, lo, hi, p);
      MatchesInSlice(data, Gif87a, lo, hi, p);
  }

  /** A terminator inside `[lo, hi)` is a terminator of `data[lo..hi]` at the shifted offset, and conversely. */
  lemma TrailerInSlice(fmt: Format, data: seq<byte>, lo: nat, hi: nat, j: nat)
    requires lo <= j && j + TrailerLen(fmt) <= hi <= |data|
    ensures IsTrailerAt(fmt, data[lo..hi], j - lo) <==> IsTrailerAt(fmt, data, j)
  {
    MatchesInSlice(data, Trailer(fmt), lo, hi, j);
  }

  /** Each carved image, as bytes, is framed by its format's header and first terminator. */
  lemma CarvedImagesAreFramed(fmt: Format, data: seq<byte>, k: nat)
    requires k < |Carve(fmt, data, 0)|
    ensures InBounds(data, Carve(fmt, data, 0))
    ensures IsFramedImage(fmt, Slices(data, Carve(fmt, data, 0))[k])
  {
    var ss := Carve(fmt, data, 0);
    CarveInBounds(fmt, data);
    CarveAt(fmt, data, k);
    SpanBytesAreFramed(fmt, data, ss[k]);
    assert Slices(data, ss)[k] == data[ss[k].start..ss[k].end];
  }

  /** At a header the reference scan takes the span up to the first terminator, or stops. */
  lemma CarveAtHeader(fmt: Format, data: seq<byte>, i: nat)
    requires IsHeaderAt(fmt, data, i)
    ensures NextTrailer(fmt, data, i).None? ==> Carve(fmt, data, i) == []
    ensures NextTrailer(fmt, data, i).Some? ==>
              var e := NextTrailer(fmt, data, i).value + TrailerLen(fmt);
              e <= |data| && Carve(fmt, data, i) == [Span(i, e)] + Carve(fmt, data, e)
  {
    assert NextHeader(fmt, data, i) == Some(i);
  }

  /** An offset that holds no header is skipped by the reference scan. */
  lemma CarveSkipsNonHeader(fmt: Format, data: seq<byte>, i: nat)
    requires i + HeaderLen(fmt) <= |data| && !IsHeaderAt(fmt, data, i)
    ensures Carve(fmt, data, i) == Carve(fmt, data, i + 1)
  {
    assert NextHeader(fmt, data, i) == NextHeader(fmt, data, i + 1);
    SameNextHeader(fmt, data, i, i + 1);
  }

  /** Two offsets with the same next header give the same scan. */
  lemma SameNextHeader(fmt: Format, data: seq<byte>, a: nat, b: nat)
    requires a <= |data| && b <= |data| && NextHeader(fmt, data, a) == NextHeader(fmt, data, b)
    ensures Carve(fmt, data, a) == Carve(fmt, data, b)
  {
  }

  /**
   * The cursor loop's invariant: the spans found so far, followed by what the
   * reference scan finds from the cursor on, are `whole`, what it finds from
   * the start.
   */
  ghost predicate ScannedTo(fmt: Format, data: seq<byte>, images: seq<Span>, i: nat, whole: seq<Span>)
  {
    i <= |data| && images + Carve(fmt, data, i) == whole
  }

  /** Before the first step nothing has been found. */
  lemma ScanStart(fmt: Format, data: seq<byte>)
    ensures ScannedTo(fmt, data, [], 0, Carve(fmt, data, 0))
  {
    assert [] + Carve(fmt, data, 0) == Carve(fmt, data, 0);
  }

  /** Where no header fits any more, the reference scan is over, so the spans found are all of them. */
  lemma CarveAtEnd(fmt: Format, data: seq<byte>, i: nat, images: seq<Span>, whole: seq<Span>)
    requires ScannedTo(fmt, data, images, i, whole) && |data| < i + HeaderLen(fmt)
    ensures Carve(fmt, data, i) == []
    ensures images == whole
  {
    assert NextHeader(fmt, data, i) == None;
    assert images + [] == images;
  }

  /** The cursor loop's step past an offset that holds no header. */
  lemma StepAtNonHeader(fmt: Format, data: seq<byte>, i: nat, images: seq<Span>, whole: seq<Span>)
    requires ScannedTo(fmt, data, images, i, whole)
    requires i + HeaderLen(fmt) <= |data| && !IsHeaderAt(fmt, data, i)
    ensures ScannedTo(fmt, data, images, i + 1, whole)
  {
    CarveSkipsNonHeader(fmt, data, i);
  }

  /**
   * The cursor loop's step at a header whose first terminator starts at `t`:
   * the span ends inside the buffer, and appending it and jumping to its end
   * keeps the invariant.
   */
  lemma StepAtTerminatedHeader(fmt: Format, data: seq<byte>, i: nat, t: nat, images: seq<Span>, whole: seq<Span>)
    requires ScannedTo(fmt, data, images, i, whole)
    requires IsHeaderAt(fmt, data, i) && NextTrailer(fmt, data, i) == Some(t)
    ensures i < t + TrailerLen(fmt) <= |data|
    ensures ScannedTo(fmt, data, images + [Span(i, t + TrailerLen(fmt))], t + TrailerLen(fmt), whole)
  {
    CarveAtTrailer(fmt, data, i, t);
    ScanAppend(fmt, data, images, i, t + TrailerLen(fmt), whole);
  }

  /**
   * The terminator search the loop runs at a header offset `i` (the
   * `windows(..).enumerate().find` of lines 30-33, 57-60 and 84-87). `found` is
   * `FirstTerminator`'s result, relative to `i`; it places the next terminator
   * at `i + found.value`, or tells that there is none.
   */
  method SearchTerminator(fmt: Format, data: seq<byte>, i: nat) returns (found: Option<nat>)
    requires i <= |data|
    ensures found.Some? ==> NextTrailer(fmt, data, i) == Some(i + found.value)
    ensures found.None? ==> NextTrailer(fmt, data, i).None?
  {
    found := FirstTerminator(fmt, data, i);
    FirstTerminatorIsNextTrailer(fmt, data, i);
  }

  /** At a header whose first terminator starts at `t`, the scan takes the span up to `t`'s end and goes on there. */
  lemma CarveAtTrailer(fmt: Format, data: seq<byte>, i: nat, t: nat)
    requires IsHeaderAt(fmt, data, i) && NextTrailer(fmt, data, i) == Some(t)
    ensures i < t + TrailerLen(fmt) <= |data|
    ensures Carve(fmt, data, i) == [Span(i, t + TrailerLen(fmt))] + Carve(fmt, data, t + TrailerLen(fmt))
  {
    CarveAtHeader(fmt, data, i);
  }

  /** Where the scan from `i` starts with a span ending at `e`, appending it and moving to `e` keeps the invariant. */
  lemma ScanAppend(fmt: Format, data: seq<byte>, images: seq<Span>, i: nat, e: nat, whole: seq<Span>)
    requires ScannedTo(fmt, data, images, i, whole) && e <= |data|
    requires Carve(fmt, data, i) == [Span(i, e)] + Carve(fmt, data, e)
    ensures ScannedTo(fmt, data, images + [Span(i, e)], e, whole)
  {
    AppendOne(images, Span(i, e), Carve(fmt, data, e));
  }

  /** A non-empty sequence is its head followed by its tail. */
  lemma HeadAndTail<T>(s: seq<T>)
    requires s != []
    ensures s == [s[0]] + s[1..]
  {
  }

  /** Appending one element, then a sequence, is appending the two at once. */
  lemma AppendOne<T>(a: seq<T>, x: T, b: seq<T>)
    ensures (a + [x]) + b == a + ([x] + b)
  {
  }

  /** The cursor loop's step at a header without a terminator: nothing is left to carve, so the spans found are all of them. */
  lemma StepAtUnterminatedHeader(fmt: Format, data: seq<byte>, i: nat, images: seq<Span>, whole: seq<Span>)
    requires ScannedTo(fmt, data, images, i, whole)
    requires IsHeaderAt(fmt, data, i) && NextTrailer(fmt, data, i).None?
    ensures images == whole
  {
    CarveAtHeader(fmt, data, i);
    assert images + [] == images;
  }

  /**
   * The cursor loop of the three scanners. Like the source it tests for a
   * header while a full header still fits, searches for the terminator from the
   * header offset, appends the span and jumps to its end, breaks when the
   * terminator is missing, and otherwise steps one byte.
   */
  method FindImages(fmt: Format, data: seq<byte>) returns (images: seq<Span>)
    ensures images == Carve(fmt, data, 0)
  {
    images := [];
    var i: nat := 0;
    ghost var whole := Carve(fmt, data, 0);
    ScanStart(fmt, data);
    while i + HeaderLen(fmt) <= |data|
      invariant ScannedTo(fmt, data, images, i, whole)
      decreases |data| - i
    {
      var atHeader := MatchHeader(fmt, data, i);
      if atHeader {
        var found := SearchTerminator(fmt, data, i);
        if found.Some? {
          var t := i + found.value;
          var end := t + TrailerLen(fmt);
          // the source's `end <= data.len()` test always succeeds
          StepAtTerminatedHeader(fmt, data, i, t, images, whole);
          images := images + [Span(i, end)];
          i := end;
        } else {
          StepAtUnterminatedHeader(fmt, data, i, images, whole);
          break;
        }
      } else {
        StepAtNonHeader(fmt, data, i, images, whole);
        i := i + 1;
      }
    }
    if i + HeaderLen(fmt) > |data| {
      CarveAtEnd(fmt, data, i, images, whole);
    }
  }
}
