/** The rasterization path of `PDFPlugin._read_image`: the rendered pages are
    copied one by one into a zero-filled (pages, height, width, 3) buffer sized
    from the first page, every page is optionally turned by np.rot90 over axes
    1 and 2, and a three-dimensional array with a single leading entry would
    lose that leading axis.

    Pixels are kept as rows of RGB triples, so the channel axis of length 3 is
    the triple itself. */
module Raster {
  import opened Base

  const CHANNELS: nat := 3

  /** One pixel: red, green and blue samples. */
  datatype Rgb = Rgb(r: Byte, g: Byte, b: Byte)

  /** A height x width grid of pixels, row by row. */
  type Frame = seq<seq<Rgb>>

  /** A page as the renderer delivers it: an RGB image. */
  datatype Page = Page(height: nat, width: nat, pixels: Frame)

  predicate HasShape(frame: Frame, h: nat, w: nat) {
    |frame| == h && forall i :: 0 <= i < h ==> |frame[i]| == w
  }

  predicate WellFormed(page: Page) {
    HasShape(page.pixels, page.height, page.width)
  }

  /** numpy accepts `si[i] = img` when each of the page's extents equals the
      slot's or is 1 (then it is repeated); otherwise it raises. */
  predicate Broadcastable(page: Page, h: nat, w: nat) {
    (page.height == h || page.height == 1) && (page.width == w || page.width == 1)
  }

  /** What `si[i] = img` stores in a slot of extents h x w. */
  function Broadcast(page: Page, h: nat, w: nat): (frame: Frame)
    requires WellFormed(page) && Broadcastable(page, h, w)
    ensures HasShape(frame, h, w)
  {
    seq(h, i requires 0 <= i < h =>
      seq(w, j requires 0 <= j < w =>
        page.pixels[if page.height == h then i else 0][if page.width == w then j else 0]))
  }

  /** A page whose extents match the slot is stored unchanged. */
  lemma BroadcastExact(page: Page)
    requires WellFormed(page)
    ensures Broadcast(page, page.height, page.width) == page.pixels
  {
    var frame := Broadcast(page, page.height, page.width);
    forall i | 0 <= i < page.height
      ensures frame[i] == page.pixels[i]
    {
    }
  }

  /** The first page, from index `from` on, that cannot be stored in an
      h x w slot. */
  function FirstMismatch(pages: seq<Page>, h: nat, w: nat, from: nat): (k: Option<nat>)
    requires from <= |pages|
    ensures k.None? ==> forall i :: from <= i < |pages| ==> Broadcastable(pages[i], h, w)
    ensures k.Some? ==> (from <= k.value < |pages| && !Broadcastable(pages[k.value], h, w) &&
      forall i :: from <= i < k.value ==> Broadcastable(pages[i], h, w))
    decreases |pages| - from
  {
    if from == |pages| then None
    else if !Broadcastable(pages[from], h, w) then Some(from)
    else FirstMismatch(pages, h, w, from + 1)
  }

  /** Lines 104-112: no pages raise; otherwise the slots are sized from page
      0 and page i goes into slot i, the first page that does not fit
      raising. */
  function Stacked(pages: seq<Page>): (r: Result<seq<Frame>>)
    requires forall i :: 0 <= i < |pages| ==> WellFormed(pages[i])
    ensures |pages| == 0 ==> r == Err(NoImageData)
    ensures r.Err? && |pages| > 0 ==>
      && r.error.BroadcastMismatch? && r.error.page < |pages|
      && !Broadcastable(pages[r.error.page], pages[0].height, pages[0].width)
      && forall j :: 0 <= j < r.error.page ==> Broadcastable(pages[j], pages[0].height, pages[0].width)
    ensures r.Ok? ==> |r.value| == |pages| > 0
  {
    if |pages| == 0 then Err(NoImageData)
    else
      var h, w := pages[0].height, pages[0].width;
      match FirstMismatch(pages, h, w, 0)
      case Some(k) => Err(BroadcastMismatch(k))
      case None => Ok(seq(|pages|, i requires 0 <= i < |pages| => Broadcast(pages[i], h, w)))
  }

  /** Stacking succeeds iff there is a page and every page fits the first
      page's extents; then slot i has those extents and holds page i. */
  lemma StackedSlots(pages: seq<Page>)
    requires forall i :: 0 <= i < |pages| ==> WellFormed(pages[i])
    ensures Stacked(pages).Ok? <==>
      |pages| > 0 && forall i :: 0 <= i < |pages| ==> Broadcastable(pages[i], pages[0].height, pages[0].width)
    ensures Stacked(pages).Ok? ==> (|Stacked(pages).value| == |pages| &&
      forall i :: 0 <= i < |pages| ==>
        HasShape(Stacked(pages).value[i], pages[0].height, pages[0].width) &&
        Stacked(pages).value[i] == Broadcast(pages[i], pages[0].height, pages[0].width))
  {
    if |pages| > 0 {
      var h, w := pages[0].height, pages[0].width;
      var k := FirstMismatch(pages, h, w, 0);
      if k.Some? {
        assert !Broadcastable(pages[k.value], h, w);
      }
    }
  }

  /** When all pages have the same extents, slot i holds exactly page i. */
  lemma {:induction false} UniformPagesStackExactly(pages: seq<Page>)
    requires |pages| > 0
    requires forall i :: 0 <= i < |pages| ==> WellFormed(pages[i])
    requires forall i :: 0 <= i < |pages| ==>
      pages[i].height == pages[0].height && pages[i].width == pages[0].width
    ensures Stacked(pages).Ok?
    ensures forall i :: 0 <= i < |pages| ==> Stacked(pages).value[i] == pages[i].pixels
  {
    StackedSlots(pages);
    forall i | 0 <= i < |pages|
      ensures Stacked(pages).value[i] == pages[i].pixels
    {
      BroadcastExact(pages[i]);
    }
  }

  /** The copy loop stopping at page i, all earlier pages having fitted, is
      the error Stacked specifies. */
  lemma StackedStopsAt(pages: seq<Page>, i: nat)
    requires forall k :: 0 <= k < |pages| ==> WellFormed(pages[k])
    requires i < |pages|
    requires forall k :: 0 <= k < i ==> Broadcastable(pages[k], pages[0].height, pages[0].width)
    requires !Broadcastable(pages[i], pages[0].height, pages[0].width)
    ensures Stacked(pages) == Err(BroadcastMismatch(i))
  {
    assert FirstMismatch(pages, pages[0].height, pages[0].width, 0) == Some(i);
  }

  /** The copy loop running to the end, slot k holding page k broadcast, is
      the array Stacked specifies. */
  lemma StackedCompletes(pages: seq<Page>, frames: seq<Frame>)
    requires forall k :: 0 <= k < |pages| ==> WellFormed(pages[k])
    requires |pages| > 0 && |frames| == |pages|
    requires forall k :: 0 <= k < |pages| ==>
      Broadcastable(pages[k], pages[0].height, pages[0].width) &&
      frames[k] == Broadcast(pages[k], pages[0].height, pages[0].width)
    ensures Stacked(pages) == Ok(frames)
  {
    var h, w := pages[0].height, pages[0].width;
    assert FirstMismatch(pages, h, w, 0) == None;
    var expected := seq(|pages|, i requires 0 <= i < |pages| => Broadcast(pages[i], h, w));
    assert frames == expected;
  }

  /** The zero-filled slot `np.zeros` allocates. */
  function Blank(h: nat, w: nat): (frame: Frame)
    ensures HasShape(frame, h, w)
  {
    seq(h, _ => seq(w, _ => Rgb(0, 0, 0)))
  }

  /** The copy loop of lines 109-112: page i goes into slot i until a page
      does not fit, whose index is returned; slots before it hold their pages
      broadcast. */
  method CopyPages(pages: seq<Page>, h: nat, w: nat, si: array<Frame>) returns (stop: Option<nat>)
    requires forall i :: 0 <= i < |pages| ==> WellFormed(pages[i])
    requires si.Length == |pages|
    modifies si
    ensures stop.None? ==> forall k :: 0 <= k < |pages| ==>
      Broadcastable(pages[k], h, w) && si[k] == Broadcast(pages[k], h, w)
    ensures stop.Some? ==>
      && stop.value < |pages| && !Broadcastable(pages[stop.value], h, w)
      && forall k :: 0 <= k < stop.value ==> Broadcastable(pages[k], h, w)
  {
    for i := 0 to |pages|
      invariant forall k :: 0 <= k < i ==> Broadcastable(pages[k], h, w)
      invariant forall k :: 0 <= k < i ==> si[k] == Broadcast(pages[k], h, w)
    {
      if !Broadcastable(pages[i], h, w) {
        return Some(i);
      }
      si[i] := Broadcast(pages[i], h, w);
    }
    return None;
  }

  /** Lines 104-112 as the source runs them: check the page count, allocate
      the buffer from the first page's extents, then copy page by page. */
  method StackPages(pages: seq<Page>) returns (r: Result<seq<Frame>>)
    requires forall i :: 0 <= i < |pages| ==> WellFormed(pages[i])
    ensures r == Stacked(pages)
  {
    if |pages| < 1 {
      return Err(NoImageData);
    }
    var h, w := pages[0].height, pages[0].width;
    var blank := Blank(h, w);
    var si := new Frame[|pages|](_ => blank);
    var stop := CopyPages(pages, h, w, si);
    if stop.Some? {
      StackedStopsAt(pages, stop.value);
      return Err(BroadcastMismatch(stop.value));
    }
    StackedCompletes(pages, si[..]);
    return Ok(si[..]);
  }

  /** np.rot90 of one h x w page: the result is w x h, and its row a, column
      b is the page's row b, column w-1-a. */
  function Rot90(frame: Frame, h: nat, w: nat): (turned: Frame)
    requires HasShape(frame, h, w)
    ensures HasShape(turned, w, h)
  {
    seq(w, a requires 0 <= a < w => seq(h, b requires 0 <= b < h => frame[b][w - 1 - a]))
  }

  /** The opposite quarter turn, np.rot90 with k=-1, taking a w x h frame
      back to h x w. */
  function RotMinus90(turned: Frame, h: nat, w: nat): (frame: Frame)
    requires HasShape(turned, w, h)
    ensures HasShape(frame, h, w)
  {
    seq(h, i requires 0 <= i < h => seq(w, j requires 0 <= j < w => turned[w - 1 - j][i]))
  }

  /** The quarter turn loses nothing: turning back restores the page. */
  lemma RotateBack(frame: Frame, h: nat, w: nat)
    requires HasShape(frame, h, w)
    ensures RotMinus90(Rot90(frame, h, w), h, w) == frame
  {
    var back := RotMinus90(Rot90(frame, h, w), h, w);
    forall i | 0 <= i < h
      ensures back[i] == frame[i]
    {
    }
  }

  /** An n-dimensional array as the shape numpy reports and the pages it
      holds; reshaping changes the shape and not the pages. */
  datatype PixelArray = PixelArray(shape: seq<nat>, frames: seq<Frame>)

  /** The stacked buffer: shape (n, h, w, 3) with n pages of h x w. */
  predicate IsStack(a: PixelArray) {
    |a.shape| == 4 && a.shape[3] == CHANNELS && |a.frames| == a.shape[0] &&
    forall i :: 0 <= i < |a.frames| ==> HasShape(a.frames[i], a.shape[1], a.shape[2])
  }

  /** `np.rot90(si, axes=(1,2))`: every page turned, extents of axes 1 and 2
      exchanged. */
  function RotatePages(a: PixelArray): (turned: PixelArray)
    requires IsStack(a)
    ensures IsStack(turned)
    ensures turned.shape == [a.shape[0], a.shape[2], a.shape[1], a.shape[3]]
  {
    var h, w := a.shape[1], a.shape[2];
    PixelArray([a.shape[0], w, h, a.shape[3]],
      seq(|a.frames|, i requires 0 <= i < |a.frames| => Rot90(a.frames[i], h, w)))
  }

  /** Lines 120-121: drop the leading axis of a three-dimensional array whose
      leading extent is 1. */
  function Collapse(a: PixelArray): (r: PixelArray)
    ensures r.frames == a.frames
    ensures |r.shape| < |a.shape| <==> |a.shape| == 3 && a.shape[0] == 1
    ensures |r.shape| < |a.shape| ==> r.shape == a.shape[1..]
    ensures |r.shape| >= |a.shape| ==> r == a
  {
    if |a.shape| == 3 && a.shape[0] == 1 then a.(shape := a.shape[1..]) else a
  }

  /** Lines 104-121 as a whole: stack, turn when rotate is 90, collapse. */
  function Rasterize(pages: seq<Page>, rotate: int): (r: Result<PixelArray>)
    requires forall i :: 0 <= i < |pages| ==> WellFormed(pages[i])
    ensures r.Err? <==> Stacked(pages).Err?
    ensures r.Err? ==> r.error == Stacked(pages).error
    ensures r.Ok? ==> IsStack(r.value) && r.value.shape[0] == |pages|
  {
    match Stacked(pages)
    case Err(e) => Err(e)
    case Ok(frames) =>
      StackedSlots(pages);
      var si := PixelArray([|pages|, pages[0].height, pages[0].width, CHANNELS], frames);
      var turned := if rotate == 90 then RotatePages(si) else si;
      Ok(Collapse(turned))
  }

  /** The rasterized array: (n, h0, w0, 3) with h0 and w0 from page 0, or
      (n, w0, h0, 3) when rotate is 90, slot i holding page i (turned when
      rotate is 90). The buffer always has four axes, so the single-page
      collapse, which asks for three, never applies: one page stays (1, h0,
      w0, 3). */
  lemma RasterizeShape(pages: seq<Page>, rotate: int)
    requires forall i :: 0 <= i < |pages| ==> WellFormed(pages[i])
    requires Rasterize(pages, rotate).Ok?
    ensures var a := Rasterize(pages, rotate).value;
      var n, h, w := |pages|, pages[0].height, pages[0].width;
      && a.shape == (if rotate == 90 then [n, w, h, CHANNELS] else [n, h, w, CHANNELS])
      && |a.frames| == n
      && forall i :: 0 <= i < n ==>
           a.frames[i] == (if rotate == 90 then Rot90(Broadcast(pages[i], h, w), h, w) else Broadcast(pages[i], h, w))
  {
    StackedSlots(pages);
  }

  /** Turning by 90 degrees exchanges the row and column extents of the
      output and keeps the page and channel counts. */
  lemma RotateSwapsExtents(pages: seq<Page>)
    requires forall i :: 0 <= i < |pages| ==> WellFormed(pages[i])
    requires Rasterize(pages, 0).Ok?
    ensures Rasterize(pages, 90).Ok?
    ensures var flat, turned := Rasterize(pages, 0).value.shape, Rasterize(pages, 90).value.shape;
      |flat| == |turned| == 4 && turned == [flat[0], flat[2], flat[1], flat[3]]
  {
    RasterizeShape(pages, 0);
    RasterizeShape(pages, 90);
  }
}
