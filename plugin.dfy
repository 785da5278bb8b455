/** The `PDFPlugin` class: reading a PDF either as an encapsulated document
    or as a stack of rasterized pages, setting the header's axes and tags, and
    refusing every write.

    What the environment supplies is passed in: whether the renderer is
    installed, the file's bytes, what the renderer makes of them, and the
    clock reading used for the dataset's dates. */
module Plugin {
  import opened Base
  import opened Text
  import opened Options
  import opened Encapsulation
  import opened Raster
  import opened Tags

  /** What `convert_from_bytes` returns for the file's bytes: the rendered
      pages in document order, or the host's NotImageError. */
  datatype Rendering = Rendered(pages: seq<Page>) | NotAnImage

  /** The data part of a read: the dataset, or the pixel array. */
  datatype ReadOutcome = Encapsulated(ds: EncapsulatedPdf) | Rasterized(si: PixelArray)

  predicate WellFormedRendering(rendering: Rendering) {
    rendering.Rendered? ==> forall i :: 0 <= i < |rendering.pages| ==> WellFormed(rendering.pages[i])
  }

  /** `_read_image` from the attributes the instance held before: the renderer
      check, the option resolver, then the encapsulation or the rasterization
      branch. */
  function Read(prior: Options.Fields, popplerInstalled: bool, pdfopt: Option<string>, file: seq<Byte>,
                rendering: Rendering, now: DateTime): (r: Result<ReadOutcome>)
    requires ValidDateTime(now) && WellFormedRendering(rendering)
    ensures !popplerInstalled ==> r == Err(PopplerNotInstalled)
    ensures r.Ok? ==> popplerInstalled && Resolve(prior, pdfopt).result.Ok?
    ensures r.Ok? ==> (r.value.Encapsulated? <==> Resolve(prior, pdfopt).result.value.encapsulate)
    ensures r.Ok? && r.value.Encapsulated? ==> r.value.ds.encapsulatedDocument == PadEven(file)
    ensures r.Ok? && r.value.Encapsulated? ==> r.value.ds == GenerateDicomFromPdf(file, now)
    ensures r.Ok? && r.value.Rasterized? ==>
      rendering.Rendered? && IsStack(r.value.si) && r.value.si.shape[0] == |rendering.pages| > 0
    ensures popplerInstalled && Resolve(prior, pdfopt).result.Err? ==> r == Err(Resolve(prior, pdfopt).result.error)
    ensures (popplerInstalled && Resolve(prior, pdfopt).result.Ok? && !Resolve(prior, pdfopt).result.value.encapsulate) ==>
      match rendering
      case NotAnImage => r == Err(NotImage)
      case Rendered(pages) =>
        var raster := Rasterize(pages, Resolve(prior, pdfopt).result.value.rotate);
        && (r.Err? <==> raster.Err?)
        && (r.Err? ==> r.error == raster.error)
        && (r.Ok? ==> r.value == Rasterized(raster.value))
  {
    if !popplerInstalled then Err(PopplerNotInstalled)
    else
      match Resolve(prior, pdfopt).result
      case Err(e) => Err(e)
      case Ok(settings) => Convert(settings, file, rendering, now)
  }

  /** The part of `_read_image` after the options are resolved: the dataset
      when encapsulate is on, otherwise the host's NotImageError or the
      rasterized pages. */
  function Convert(settings: Settings, file: seq<Byte>, rendering: Rendering, now: DateTime): (r: Result<ReadOutcome>)
    requires ValidDateTime(now) && WellFormedRendering(rendering)
    ensures settings.encapsulate ==> r.Ok? && r.value.Encapsulated? && r.value.ds.encapsulatedDocument == PadEven(file)
    ensures settings.encapsulate ==> r == Ok(Encapsulated(GenerateDicomFromPdf(file, now)))
    ensures !settings.encapsulate && rendering.NotAnImage? ==> r == Err(NotImage)
    ensures !settings.encapsulate && rendering.Rendered? ==>
      var raster := Rasterize(rendering.pages, settings.rotate);
      && (r.Err? <==> raster.Err?)
      && (r.Err? ==> r.error == raster.error)
      && (r.Ok? ==> r.value == Rasterized(raster.value))
  {
    if settings.encapsulate then Ok(Encapsulated(GenerateDicomFromPdf(file, now)))
    else
      match rendering
      case NotAnImage => Err(NotImage)
      case Rendered(pages) =>
        match Rasterize(pages, settings.rotate)
        case Err(e) => Err(e)
        case Ok(si) => Ok(Rasterized(si))
  }

  /** The attributes `_read_image` leaves on the instance. */
  function AttributesAfterRead(prior: Options.Fields, popplerInstalled: bool, pdfopt: Option<string>): Options.Fields {
    if !popplerInstalled then prior else Resolve(prior, pdfopt).fields
  }

  /** The parts of the host's header that the plugin sets. */
  class Header {
    var dicomHeader: Option<EncapsulatedPdf>
    var tags: map<nat, seq<int>>
    var photometricInterpretation: string
    var color: bool
    var axes: seq<Axis>

    /** A header as the host hands it over. */
    constructor (color: bool)
      ensures this.color == color && dicomHeader == None && tags == map[] && axes == []
      ensures photometricInterpretation == ""
    {
      this.color := color;
      dicomHeader := None;
      tags := map[];
      photometricInterpretation := "";
      axes := [];
    }
  }

  class PdfPlugin {
    const name: string := "pdf"
    const description: string := "Read PDF files as encapsulated PDF."
    const authors: string := "Erling Andersen"
    const version: string := "1.0.0"
    const url: string := "www.helse-bergen.no"
    /** `_need_local_file`: the plugin reads from an open file handle. */
    const needLocalFile: bool := false

    var dpi: Attr
    var rotate: Attr
    var encapsulate: Attr

    function Attributes(): Options.Fields
      reads this
    {
      Options.Fields(dpi, rotate, encapsulate)
    }

    /** `__init__` sets none of the three attributes; `encapsulate` is given
        whatever value the instance receives from outside this class. */
    constructor (inherited: Attr)
      ensures Attributes() == Options.Fields(Unset, Unset, inherited)
    {
      dpi := Unset;
      rotate := Unset;
      encapsulate := inherited;
    }

    /** Lines 73-87: seed dpi and rotate, overwrite attributes entry by entry,
        coerce them in place and validate rotate. */
    method ResolveOptions(pdfopt: Option<string>) returns (r: Result<Settings>)
      modifies this
      ensures Attributes() == Resolve(old(Attributes()), pdfopt).fields
      ensures r == Resolve(old(Attributes()), pdfopt).result
    {
      dpi := Int(DEFAULT_DPI);
      rotate := Int(DEFAULT_ROTATE);
      ghost var seeded := Attributes();
      var exprs := Entries(pdfopt);
      for i := 0 to |exprs|
        invariant ApplyEntries(seeded, exprs[..i]) == Step(Attributes(), None)
      {
        EntriesStep(seeded, exprs, i);
        var parts := Split(exprs[i], '=');
        if |parts| != 2 {
          ResolveStopsAt(old(Attributes()), pdfopt, i);
          return Err(UnpackMismatch(exprs[i]));
        }
        var attr, value := parts[0], parts[1];
        if attr in LEGAL_ATTRIBUTES {
          if attr == "dpi" {
            dpi := Str(value);
          } else if attr == "rotate" {
            rotate := Str(value);
          } else {
            encapsulate := Str(value);
          }
        } else {
          ResolveStopsAt(old(Attributes()), pdfopt, i);
          return Err(UnknownAttribute(attr));
        }
      }
      assert exprs[..|exprs|] == exprs;
      r := CoerceAttributes();
    }

    /** Lines 83-87: coerce dpi, rotate and encapsulate in place, one after
        the other, then validate rotate. */
    method CoerceAttributes() returns (r: Result<Settings>)
      modifies this
      ensures Attributes() == Coerce(old(Attributes())).fields
      ensures r == Coerce(old(Attributes())).result
    {
      var coercedDpi := ToInt("dpi", dpi);
      if coercedDpi.Err? {
        return Err(coercedDpi.error);
      }
      dpi := Int(coercedDpi.value);
      var coercedRotate := ToInt("rotate", rotate);
      if coercedRotate.Err? {
        return Err(coercedRotate.error);
      }
      rotate := Int(coercedRotate.value);
      var flag := ToFlag(encapsulate);
      if flag.Err? {
        return Err(flag.error);
      }
      encapsulate := Bool(flag.value);
      if coercedRotate.value != 0 && coercedRotate.value != 90 {
        return Err(RotateNotImplemented(coercedRotate.value));
      }
      return Ok(Settings(coercedDpi.value, coercedRotate.value, flag.value));
    }

    /** `_read_image`. The encapsulation branch stores the dataset in the
        header and tags it 0; the rasterization branch marks the header RGB
        colour; an exception leaves the header as it was. */
    method ReadImage(popplerInstalled: bool, pdfopt: Option<string>, file: seq<Byte>,
                     rendering: Rendering, now: DateTime, hdr: Header) returns (r: Result<ReadOutcome>)
      requires ValidDateTime(now) && WellFormedRendering(rendering)
      modifies this, hdr
      ensures Attributes() == AttributesAfterRead(old(Attributes()), popplerInstalled, pdfopt)
      ensures r == Read(old(Attributes()), popplerInstalled, pdfopt, file, rendering, now)
      ensures r.Err? ==> unchanged(hdr)
      ensures r.Ok? && r.value.Encapsulated? ==>
        && hdr.dicomHeader == Some(r.value.ds) && hdr.tags == map[0 := [0]]
        && hdr.photometricInterpretation == old(hdr.photometricInterpretation)
        && hdr.color == old(hdr.color) && hdr.axes == old(hdr.axes)
      ensures r.Ok? && r.value.Rasterized? ==>
        && hdr.photometricInterpretation == "RGB" && hdr.color
        && hdr.dicomHeader == old(hdr.dicomHeader) && hdr.tags == old(hdr.tags) && hdr.axes == old(hdr.axes)
    {
      if !popplerInstalled {
        return Err(PopplerNotInstalled);
      }
      var settings := ResolveOptions(pdfopt);
      if settings.Err? {
        return Err(settings.error);
      }
      r := ConvertInto(settings.value, file, rendering, now, hdr);
    }

    /** `_read_image` once the options are resolved: store and tag the
        dataset, or raise NotImageError, or rasterize the pages. */
    method ConvertInto(settings: Settings, file: seq<Byte>, rendering: Rendering, now: DateTime,
                       hdr: Header) returns (r: Result<ReadOutcome>)
      requires ValidDateTime(now) && WellFormedRendering(rendering)
      modifies hdr
      ensures r == Convert(settings, file, rendering, now)
      ensures r.Err? ==> unchanged(hdr)
      ensures r.Ok? && r.value.Encapsulated? ==>
        && hdr.dicomHeader == Some(r.value.ds) && hdr.tags == map[0 := [0]]
        && hdr.photometricInterpretation == old(hdr.photometricInterpretation)
        && hdr.color == old(hdr.color) && hdr.axes == old(hdr.axes)
      ensures r.Ok? && r.value.Rasterized? ==>
        && hdr.photometricInterpretation == "RGB" && hdr.color
        && hdr.dicomHeader == old(hdr.dicomHeader) && hdr.tags == old(hdr.tags) && hdr.axes == old(hdr.axes)
    {
      if settings.encapsulate {
        var ds := GenerateDicomFromPdf(file, now);
        hdr.dicomHeader := Some(ds);
        hdr.tags := map[0 := [0]];
        return Ok(Encapsulated(ds));
      }
      if rendering.NotAnImage? {
        return Err(NotImage);
      }
      var si := RasterizeInto(rendering.pages, settings.rotate, hdr);
      if si.Err? {
        return Err(si.error);
      }
      return Ok(Rasterized(si.value));
    }

    /** Lines 104-121: stack the pages into the buffer, mark the header as RGB
        colour, turn the pages when rotate is 90 and collapse a single-page
        three-dimensional array. */
    method RasterizeInto(pages: seq<Page>, rotate: int, hdr: Header) returns (r: Result<PixelArray>)
      requires forall i :: 0 <= i < |pages| ==> WellFormed(pages[i])
      modifies hdr
      ensures r == Rasterize(pages, rotate)
      ensures r.Err? ==> unchanged(hdr)
      ensures r.Ok? ==>
        && hdr.photometricInterpretation == "RGB" && hdr.color
        && hdr.dicomHeader == old(hdr.dicomHeader) && hdr.tags == old(hdr.tags) && hdr.axes == old(hdr.axes)
    {
      var stacked := StackPages(pages);
      if stacked.Err? {
        return Err(stacked.error);
      }
      StackedSlots(pages);
      var si := PixelArray([|pages|, pages[0].height, pages[0].width, CHANNELS], stacked.value);
      hdr.photometricInterpretation := "RGB";
      hdr.color := true;
      if rotate == 90 {
        si := RotatePages(si);
      }
      si := Collapse(si);
      return Ok(si);
    }

    /** `_set_tags`: the axes are built by appending row and column, inserting
        a slice axis in front and appending an rgb axis, then a tag is added
        for each slice. Too few spatial extents raise IndexError before the
        header's axes or tags are touched. */
    method SetTags(hdr: Header, shape: seq<nat>) returns (r: Outcome)
      modifies hdr
      ensures hdr.color == old(hdr.color) && hdr.dicomHeader == old(hdr.dicomHeader)
      ensures hdr.photometricInterpretation == old(hdr.photometricInterpretation)
      ensures r.Fail? <==> Axes(shape, hdr.color).Err?
      ensures r.Fail? ==> r.error == IndexOutOfRange && unchanged(hdr)
      ensures r.Pass? ==> hdr.axes == Axes(shape, hdr.color).value
      ensures r.Pass? ==> hdr.tags == TagTable(SliceCount(SpatialShape(shape, hdr.color)))
    {
      var axes: seq<Axis> := [];
      var actualShape := shape;
      var color := false;
      if hdr.color {
        actualShape := if |shape| > 0 then shape[..|shape| - 1] else [];
        color := true;
      }
      assert actualShape == SpatialShape(shape, hdr.color);
      var nz := 1;
      if |actualShape| < 2 {
        return Fail(IndexOutOfRange);
      }
      axes := axes + [UniformLengthAxis("row", actualShape[|actualShape| - 2])];
      axes := axes + [UniformLengthAxis("column", actualShape[|actualShape| - 1])];
      if |actualShape| > 2 {
        nz := actualShape[|actualShape| - 3];
        axes := [UniformLengthAxis("slice", nz)] + axes;
      }
      if color {
        axes := axes + [VariableAxis("rgb", RGB_LABELS)];
      }
      hdr.axes := axes;
      var tags := BuildTags(nz);
      assert tags == TagTable(nz);
      hdr.tags := tags;
      return Pass;
    }

    /** `write_3d_numpy`: writing is not implemented, whatever the input. */
    function Write3dNumpy(si: PixelArray, destination: map<string, string>, opts: map<string, string>): (r: Outcome)
      ensures r == Fail(WriteNotImplemented)
    {
      Fail(WriteNotImplemented)
    }

    /** `write_4d_numpy`: writing is not implemented, whatever the input. */
    function Write4dNumpy(si: PixelArray, destination: map<string, string>, opts: map<string, string>): (r: Outcome)
      ensures r == Fail(WriteNotImplemented)
    {
      Fail(WriteNotImplemented)
    }
  }

  /** A configuration error is raised before either branch runs: it does not
      depend on the file, on what the renderer would make of it, or on the
      clock. */
  lemma ConfigurationErrorsComeFirst(prior: Options.Fields, pdfopt: Option<string>,
                                     file: seq<Byte>, rendering: Rendering, now: DateTime)
    requires ValidDateTime(now) && WellFormedRendering(rendering)
    requires Resolve(prior, pdfopt).result.Err?
    ensures Read(prior, true, pdfopt, file, rendering, now) == Err(Resolve(prior, pdfopt).result.error)
  {
  }

  /** With encapsulation on, the read returns a dataset embedding the file's
      bytes unmodified and padded to even length, without rendering. */
  lemma EncapsulationEmbedsFile(prior: Options.Fields, pdfopt: Option<string>,
                                file: seq<Byte>, rendering: Rendering, now: DateTime)
    requires ValidDateTime(now) && WellFormedRendering(rendering)
    requires Resolve(prior, pdfopt).result.Ok? && Resolve(prior, pdfopt).result.value.encapsulate
    ensures var r := Read(prior, true, pdfopt, file, rendering, now);
      && r.Ok? && r.value.Encapsulated?
      && |r.value.ds.encapsulatedDocument| % 2 == 0
      && r.value.ds.encapsulatedDocument[..|file|] == file
      && |r.value.ds.encapsulatedDocument| - |file| == |file| % 2
      && r.value.ds.encapsulatedDocument == PadEven(file)
      && r.value.ds == GenerateDicomFromPdf(file, now)
      && r == Read(prior, true, pdfopt, file, NotAnImage, now)
  {
  }

  /** Rasterizing n pages of identical extents h x w gives an (n, h, w, 3)
      array, or (n, w, h, 3) when rotate is 90, whose slot i is page i
      (turned a quarter when rotate is 90); a single page keeps its leading
      axis, (1, h, w, 3). */
  lemma {:induction false} RasterizedPages(prior: Options.Fields, pdfopt: Option<string>, file: seq<Byte>,
                                           pages: seq<Page>, now: DateTime)
    requires ValidDateTime(now) && |pages| > 0
    requires forall i :: 0 <= i < |pages| ==> WellFormed(pages[i])
    requires forall i :: 0 <= i < |pages| ==>
      pages[i].height == pages[0].height && pages[i].width == pages[0].width
    requires Resolve(prior, pdfopt).result.Ok? && !Resolve(prior, pdfopt).result.value.encapsulate
    ensures var r := Read(prior, true, pdfopt, file, Rendered(pages), now);
      var rotate := Resolve(prior, pdfopt).result.value.rotate;
      var n, h, w := |pages|, pages[0].height, pages[0].width;
      && r.Ok? && r.value.Rasterized?
      && r.value.si.shape == (if rotate == 90 then [n, w, h, CHANNELS] else [n, h, w, CHANNELS])
      && |r.value.si.frames| == n
      && forall i :: 0 <= i < n ==>
           r.value.si.frames[i] == (if rotate == 90 then Rot90(pages[i].pixels, h, w) else pages[i].pixels)
  {
    UniformPagesStackExactly(pages);
    var rotate := Resolve(prior, pdfopt).result.value.rotate;
    RasterizeShape(pages, rotate);
    forall i | 0 <= i < |pages|
      ensures Broadcast(pages[i], pages[0].height, pages[0].width) == pages[i].pixels
    {
      BroadcastExact(pages[i]);
    }
  }

  /** The axes `_set_tags` derives for a rasterized read describe its array
      completely (slice, row, column and the three colour labels, matching
      the (n, h, w, 3) shape), and there is one tag per page, numbered 0 to
      n-1. */
  lemma {:induction false} RasterAxesMatchArray(pages: seq<Page>, rotate: int)
    requires forall i :: 0 <= i < |pages| ==> WellFormed(pages[i])
    requires Rasterize(pages, rotate).Ok?
    ensures var shape := Rasterize(pages, rotate).value.shape;
      && Axes(shape, true).Ok?
      && Lengths(Axes(shape, true).value) == shape
      && Axes(shape, true).value[0] == UniformLengthAxis("slice", |pages|)
      && forall k: nat :: k in TagTable(SliceCount(SpatialShape(shape, true))) <==> k < |pages|
  {
    RasterizeShape(pages, rotate);
    var shape := Rasterize(pages, rotate).value.shape;
    AxesDescribeShape(shape, true);
    assert shape[|shape| - 4..] == shape;
  }
}
