# PDF format plugin of imagedata, in Dafny

This project models `PDFPlugin`, the PDF reader plugin of the imagedata
framework (src/imagedata_format_pdf/pdfplugin.py). It covers four parts.

- **The option resolver of `_read_image`.** dpi and rotate are seeded. The
  `pdfopt` string is split into `key=value` entries. Each legal key
  overwrites the instance attribute of the same name with its text. The
  attributes are then coerced in place to an int, an int and a bool, and a
  rotate other than 0 or 90 is refused.
- **The encapsulation branch.** The file's bytes are embedded in an
  Encapsulated PDF Storage dataset (SOP Class 1.2.840.10008.5.1.4.1.1.104.1,
  the IOD of section A.45 of DICOM PS3.3). They are padded with one zero
  byte when their length is odd, as section 7.1.1 of DICOM PS3.5 requires
  every value to have even length. The dataset's other attributes are
  literals and the clock reading.
- **The rasterization branch.** The rendered pages are copied into a
  zero-filled (n, h0, w0, 3) buffer sized from page 0. The pages are turned
  by `np.rot90` over axes 1 and 2 when rotate is 90. A single-page reshape
  is guarded by `ndim == 3`.
- **`_set_tags` and the write methods.** `_set_tags` derives the axis
  descriptors and the slice tag table from the array's shape and the
  header's colour flag. `write_3d_numpy` and `write_4d_numpy` always refuse.

Modules:

- `Base`: Option, Result, Outcome, bytes, and the exceptions as one `Error`
  datatype.
- `Text`: Python's `str.split`, `int()` on decimal literals and
  `str.lower()`.
- `Options`: the resolver as functions on the three attributes, with its
  lemmas.
- `Encapsulation`: the dataset and its padding.
- `Raster`: stacking, rotating and collapsing the pages.
- `Tags`: the axes and tags.
- `Plugin`: two classes. `Header` holds the parts of the host's header the
  plugin writes. `PdfPlugin` holds the mutable `dpi`, `rotate` and
  `encapsulate` attributes and these methods:
  - `ResolveOptions`, the loop over the entries, and `CoerceAttributes`,
    the in-place coercions that follow it;
  - `ReadImage`, and `ConvertInto`, its encapsulation and rasterization
    branches;
  - `RasterizeInto`, which fills the buffer page by page (the copy loop is
    `Raster.CopyPages`);
  - `SetTags`, which builds the axes and fills the tag table slice by slice;
  - the two write functions.

  Each method is proved against the specification functions of the other
  modules.

The environment is a set of parameters:

- whether poppler is installed;
- the file's bytes;
- what the renderer makes of them (a list of RGB pages, or NotImageError);
- the clock reading.

In these places the code behaves differently from what its comments or
names suggest, and the model follows the code:

- `dpi` is converted with `int()` (line 83) but never validated, and the
  code never passes it to the renderer (line 101). In the model it only
  appears in the settings.
- A page whose extents differ from page 0 is not truncated or padded
  (line 112). `si[i] = img` follows numpy broadcasting: a page extent equal
  to the slot's is copied, an extent of 1 is repeated, and any other extent raises
  ValueError (`BroadcastMismatch`).
- The comment at line 119 speaks of a single page becoming 2-D, but the
  reshape at lines 120-121 never applies, because the buffer always has four
  axes: one page reads as (1, h, w, 3). A (h, w, 3) single-page shape comes
  from the host framework, which is not part of this model.
- Lines 73-74 seed only `dpi` and `rotate`, and line 85 reads `encapsulate`
  whether or not an option set it, so its value before the read is an input
  (the constructor's argument). After a successful read it holds a bool,
  which has no `lower`. `Options.RereadNeedsEncapsulate` shows that a second
  read on the same instance then raises unless its options set
  `encapsulate` again. When its entries are well formed and its dpi and
  rotate convert, the error is the AttributeError of `.lower()`.

## Model

| member | source | states |
|---|---|---|
| Text.Split | src/imagedata_format_pdf/pdfplugin.py:77-78 | `str.split` on one character gives one piece more than there are separators, and no piece contains the separator |
| Text.JoinSplit | src/imagedata_format_pdf/pdfplugin.py:77 | splitting an option string loses nothing: joining the pieces with the separator gives the input back |
| Text.SplitOnce | src/imagedata_format_pdf/pdfplugin.py:78 | an entry with exactly one '=' unpacks into the text before it and the text after it, neither containing '=' |
| Text.ParseInt | src/imagedata_format_pdf/pdfplugin.py:83-84 | `int()` accepts a text iff it is a digit, or a '+'/'-' sign followed by a digit, followed by digits only; a leading '-' gives a value of at most 0, any other accepted text one of at least 0 |
| Text.ParseIntDigits | src/imagedata_format_pdf/pdfplugin.py:83-84 | `int()` of a non-empty digit string is its decimal reading |
| Text.ParseIntSigned | src/imagedata_format_pdf/pdfplugin.py:83-84 | a '+' before digits keeps the value `int()` gives them ("+90" is 90) and a '-' negates it |
| Text.ParseIntLeadingZero | src/imagedata_format_pdf/pdfplugin.py:83-84 | a leading zero before digits keeps the value `int()` gives them ("090" is 90) |
| Text.ParseIntToString | src/imagedata_format_pdf/pdfplugin.py:83-84 | the model's `int(str(n)) == n` for every integer (the digit limit of recent Python releases is under "Left out") |
| Text.Lower | src/imagedata_format_pdf/pdfplugin.py:85 | `lower()` keeps the length, leaves no upper-case ASCII letter, maps each upper-case letter to its lower-case one and keeps every other character |
| Options.Seed | src/imagedata_format_pdf/pdfplugin.py:73-74 | dpi becomes the int 150 and rotate the int 0, and encapsulate keeps whatever it held |
| Options.Entries | src/imagedata_format_pdf/pdfplugin.py:76-77 | there are no entries iff `pdfopt` is absent or empty; otherwise the entries contain no comma and, joined with commas, give `pdfopt` back |
| Options.SetAttr | src/imagedata_format_pdf/pdfplugin.py:80 | `setattr` gives the named attribute the value text and leaves the other two attributes unchanged |
| Options.ApplyEntry | src/imagedata_format_pdf/pdfplugin.py:78-82 | one entry raises exactly when it lacks exactly one '=' (unpack error) or names a key outside {dpi, rotate, encapsulate}; a raising entry changes nothing, and a good one sets its key's attribute to its value |
| Options.ApplyEntries | src/imagedata_format_pdf/pdfplugin.py:77-82 | after the loop each attribute either keeps its value or holds an option's text; its error and values are characterised by FirstFailure and LastAssignmentWins |
| Options.FailureSticks | src/imagedata_format_pdf/pdfplugin.py:77-82 | once an entry has raised, the entries after it have no effect |
| Options.FirstFailure | src/imagedata_format_pdf/pdfplugin.py:77-82 | the entry loop raises iff some entry is bad, and then it raises the error of the first bad entry |
| Options.LastValueIsLast | src/imagedata_format_pdf/pdfplugin.py:77-80 | the value kept for a key is that of the last entry naming it; no value is kept iff no entry names it |
| Options.LastAssignmentWins | src/imagedata_format_pdf/pdfplugin.py:77-80 | a legal key overwrites only its own attribute, and a later duplicate key wins; an attribute no entry names keeps its value |
| Options.ToInt | src/imagedata_format_pdf/pdfplugin.py:83-84 | `int()` of an attribute succeeds iff it is an int, a bool (0 or 1) or a decimal literal, and a literal gives the value it denotes; a missing attribute raises AttributeError and any other text ValueError |
| Options.ToFlag | src/imagedata_format_pdf/pdfplugin.py:85 | the encapsulate test succeeds iff the attribute is a string; a missing attribute, or an int or bool without `lower`, raises AttributeError |
| Options.FlagSpellings | src/imagedata_format_pdf/pdfplugin.py:85 | encapsulate is true iff its text is "true" or "on" in any mix of cases |
| Options.Coerce | src/imagedata_format_pdf/pdfplugin.py:83-87 | coercion succeeds iff dpi and rotate are integers, encapsulate is a string and rotate is 0 or 90; the settings are then `int()` of dpi and rotate and the on-test of encapsulate, which the attributes now hold as int, int and bool; otherwise the error is dpi's, else rotate's, else encapsulate's, else the rotate value's |
| Options.Resolve | src/imagedata_format_pdf/pdfplugin.py:73-87 | a successful resolution had no bad entry, has rotate 0 or 90, and leaves the attributes holding its int, int and bool |
| Options.DefaultsWithoutOptions | src/imagedata_format_pdf/pdfplugin.py:73-87 | with `pdfopt` absent or empty, dpi is 150 and rotate 0, and the read succeeds iff encapsulate already held a string |
| Options.RejectsBadEntry | src/imagedata_format_pdf/pdfplugin.py:76-82 | a malformed entry or one with an unknown key makes the whole resolution raise that entry's error when it is the first bad entry |
| Options.RotateMustBeZeroOrNinety | src/imagedata_format_pdf/pdfplugin.py:86-87 | a successful resolution has rotate 0 or 90, and any other integer rotate raises with that value |
| Options.ResolvedValues | src/imagedata_format_pdf/pdfplugin.py:73-85 | the resolved dpi and rotate are the integers of the last value given for them (defaults 150 and 0), and encapsulate is the on-test of its last value or of the instance's earlier text |
| Options.RereadNeedsEncapsulate | src/imagedata_format_pdf/pdfplugin.py:80-85 | after a successful resolution, a second one on the same attributes raises unless its options set encapsulate; with well-formed entries and dpi and rotate that convert, it raises the AttributeError of `.lower()` on the bool encapsulate |
| Encapsulation.PadEven | src/imagedata_format_pdf/pdfplugin.py:259-264 | the embedded bytes have even length, start with the input unchanged, and are longer by one zero byte iff the input length is odd |
| Encapsulation.PadEvenIdempotent | src/imagedata_format_pdf/pdfplugin.py:259-264 | padding an already padded value changes nothing |
| Encapsulation.PadEvenShortest | src/imagedata_format_pdf/pdfplugin.py:259-264 | the padded value is the shortest even-length zero extension of the input |
| Encapsulation.ZeroPad | src/imagedata_format_pdf/pdfplugin.py:249-252 | a strftime field has exactly its width in digits, and they read back as the number |
| Encapsulation.FormatDate | src/imagedata_format_pdf/pdfplugin.py:249-251 | `%Y%m%d` gives eight digits that read back as year, month and day |
| Encapsulation.FormatTime | src/imagedata_format_pdf/pdfplugin.py:250-252 | `%H%M%S.%f` gives six digits, a dot and six digits that read back as hour, minute, second and microsecond |
| Encapsulation.GenerateDicomFromPdf | src/imagedata_format_pdf/pdfplugin.py:232-279 | the dataset embeds the input padded to even length by a zero byte when odd (PadEven); its SOP class and its file meta's are Encapsulated PDF Storage; study and content share one date and time; the preamble is 128 zero bytes; the transfer syntax is explicit VR little endian, matching the encoding flags; the MIME type is application/pdf and the modality DOC |
| Encapsulation.CodeStringsConform | src/imagedata_format_pdf/pdfplugin.py:268-275 | every code string attribute written is a valid CS value: at most 16 upper-case letters, digits, spaces or underscores |
| Raster.Broadcast | src/imagedata_format_pdf/pdfplugin.py:112 | the page stored in a slot has the slot's extents |
| Raster.BroadcastExact | src/imagedata_format_pdf/pdfplugin.py:112 | a page whose extents match the slot is stored unchanged |
| Raster.FirstMismatch | src/imagedata_format_pdf/pdfplugin.py:110-112 | finds the first page that cannot be stored in its slot, and none only when every page can |
| Raster.Stacked | src/imagedata_format_pdf/pdfplugin.py:104-112 | no pages raise ValueError; otherwise an error names the first page that cannot be broadcast into page 0's extents, and success gives one slot per page |
| Raster.StackedSlots | src/imagedata_format_pdf/pdfplugin.py:104-112 | stacking succeeds iff there is a page and every page fits page 0's extents; then there are n slots of page 0's extents and slot i holds page i |
| Raster.UniformPagesStackExactly | src/imagedata_format_pdf/pdfplugin.py:104-112 | pages of one size stack without error, and slot i is exactly page i |
| Raster.Blank | src/imagedata_format_pdf/pdfplugin.py:109 | each slot of the zero-filled buffer has page 0's extents |
| Raster.StackPages | src/imagedata_format_pdf/pdfplugin.py:104-112 | the copy loop raises on an empty list or at the first page that does not fit, and otherwise leaves slot i holding page i for every i |
| Raster.CopyPages | src/imagedata_format_pdf/pdfplugin.py:110-112 | the loop stops at the first page that does not fit the slot extents, every earlier page fitting, and otherwise leaves every slot holding its page broadcast |
| Raster.Rot90 | src/imagedata_format_pdf/pdfplugin.py:118 | a quarter turn of an h x w page is w x h |
| Raster.RotateBack | src/imagedata_format_pdf/pdfplugin.py:118 | the quarter turn loses no pixel: turning back restores the page |
| Raster.RotatePages | src/imagedata_format_pdf/pdfplugin.py:118 | turning the stack exchanges the extents of axes 1 and 2 and keeps the page count and channels |
| Raster.Collapse | src/imagedata_format_pdf/pdfplugin.py:120-121 | the leading axis is dropped iff the array has three axes and leading extent 1; the pixels never change |
| Raster.Rasterize | src/imagedata_format_pdf/pdfplugin.py:104-121 | fails iff stacking fails, with stacking's error; otherwise a four-axis (n, _, _, 3) array of n pages of the shape's extents |
| Raster.RasterizeShape | src/imagedata_format_pdf/pdfplugin.py:104-121 | the result is (n, h0, w0, 3), or (n, w0, h0, 3) with rotate 90, and slot i holds page i (turned with rotate 90); a single page stays four-dimensional |
| Raster.RotateSwapsExtents | src/imagedata_format_pdf/pdfplugin.py:117-118 | rotate 90 gives the rotate 0 shape with axes 1 and 2 exchanged |
| Tags.SpatialShape | src/imagedata_format_pdf/pdfplugin.py:158-162 | for colour data with a non-empty shape the last extent is dropped; otherwise the shape is kept |
| Tags.Axes | src/imagedata_format_pdf/pdfplugin.py:157-190 | fewer than two spatial extents raise IndexError, and nothing else raises; otherwise the axes are slice (of spatial[-3], iff more than two spatial extents), then row of spatial[-2] and column of spatial[-1], then rgb labelled r, g, b last iff colour |
| Tags.AxesDescribeShape | src/imagedata_format_pdf/pdfplugin.py:165-190 | the axis lengths are the trailing extents of the array's shape, the whole shape for an (n, h, w, 3) colour array |
| Tags.TagTable | src/imagedata_format_pdf/pdfplugin.py:192-195 | the tag keys are exactly 0..nz-1 and each maps to [0] |
| Tags.BuildTags | src/imagedata_format_pdf/pdfplugin.py:192-195 | the slice loop produces keys exactly 0..nz-1, each mapped to [0] |
| Tags.TagsFollowSliceAxis | src/imagedata_format_pdf/pdfplugin.py:164-195 | there is one tag per entry of the slice axis, and a single tag 0 without a slice axis |
| Plugin.Header.constructor | src/imagedata_format_pdf/pdfplugin.py:54-61 | the header the host passes in as `hdr`: its colour flag, with no dataset, no tags, no axes and no photometric interpretation set yet |
| Plugin.Read | src/imagedata_format_pdf/pdfplugin.py:54-123 | a missing renderer raises OSError and a resolution error is the read's error; success returns the dataset iff encapsulate is on, and that dataset is the one `GenerateDicomFromPdf` builds from the file and the clock reading, embedding the padded file; with encapsulate off, a renderer failure raises NotImageError, and otherwise the read fails exactly when rasterizing fails, with its error, or returns the rasterized array of the rendered pages |
| Plugin.Convert | src/imagedata_format_pdf/pdfplugin.py:88-123 | once the options are resolved: encapsulate on gives exactly the dataset `GenerateDicomFromPdf` builds from the file and the clock reading, embedding the padded file; otherwise a renderer failure raises NotImageError, and the result fails exactly when rasterizing fails, with its error, or is the rasterized array |
| Plugin.PdfPlugin.constructor | src/imagedata_format_pdf/pdfplugin.py:50-52 | a new plugin has neither dpi nor rotate set, and encapsulate is what the instance inherits |
| Plugin.PdfPlugin.ResolveOptions | src/imagedata_format_pdf/pdfplugin.py:73-87 | the loop and the in-place coercions leave the attributes and return the settings or error that `Options.Resolve` specifies |
| Plugin.PdfPlugin.CoerceAttributes | src/imagedata_format_pdf/pdfplugin.py:83-87 | the in-place coercions of dpi, rotate and encapsulate and the rotate check leave the attributes and return the settings or error that `Options.Coerce` specifies |
| Plugin.PdfPlugin.ReadImage | src/imagedata_format_pdf/pdfplugin.py:54-123 | a missing renderer raises before anything changes; otherwise the result is `Read`'s: the dataset, with the header holding it and tag 0, or the pixel array, with the header marked RGB colour; on an error the header is unchanged |
| Plugin.PdfPlugin.ConvertInto | src/imagedata_format_pdf/pdfplugin.py:88-123 | the result is `Convert`'s; the dataset is stored in the header with tag 0, or the header is marked RGB colour for the pixel array; on an error the header is unchanged |
| Plugin.PdfPlugin.RasterizeInto | src/imagedata_format_pdf/pdfplugin.py:104-121 | stacking, turning and collapsing give `Raster.Rasterize`'s array, and the header is marked RGB colour only when that succeeds |
| Plugin.PdfPlugin.SetTags | src/imagedata_format_pdf/pdfplugin.py:136-196 | raises IndexError, touching nothing, iff there are fewer than two spatial extents; otherwise the header's axes are `Tags.Axes` and its tags `Tags.TagTable` of the slice count, and the colour flag is kept |
| Plugin.PdfPlugin.Write3dNumpy | src/imagedata_format_pdf/pdfplugin.py:281-300 | writing raises WriteNotImplemented whatever the input |
| Plugin.PdfPlugin.Write4dNumpy | src/imagedata_format_pdf/pdfplugin.py:302-321 | writing raises WriteNotImplemented whatever the input |
| Plugin.ConfigurationErrorsComeFirst | src/imagedata_format_pdf/pdfplugin.py:71-93 | an option or rotate error is raised before either branch, whatever the file, its rendering and the clock |
| Plugin.EncapsulationEmbedsFile | src/imagedata_format_pdf/pdfplugin.py:88-93 | with encapsulation on, the read returns the dataset `GenerateDicomFromPdf` builds from the file and the clock reading, holding the file's bytes padded to even length with a zero byte (PadEven), and does not depend on the renderer |
| Plugin.RasterizedPages | src/imagedata_format_pdf/pdfplugin.py:95-123 | a read of n same-size pages returns an (n, h, w, 3) array, or (n, w, h, 3) with rotate 90, whose slot i is page i (turned with rotate 90) |
| Plugin.RasterAxesMatchArray | src/imagedata_format_pdf/pdfplugin.py:157-195 | for a rasterized read the axes are slice, row, column and rgb matching the whole array shape, and there is one tag per page, 0 to n-1 |

## Left out

- The renderer (`convert_from_bytes`, poppler) is a parameter: a list of
  RGB pages, or NotImageError. Its other exceptions, and pixel modes other
  than RGB, are not modelled.
- The `POPPLER_INSTALLED` probe and the version lookup in
  src/imagedata_format_pdf/__init__.py spawn a process or read files. The
  probe's outcome is a boolean parameter.
- `_pdf_to_png` is not modelled: it is dead code referring to names that
  are not defined.
- pydicom's `Dataset`/`FileDataset` objects, the temporary file name and
  the writing of the dataset are not modelled. The dataset is a datatype
  holding the attribute values the plugin sets.
- `datetime.now()` is a parameter, restricted to years 1000 to 9999 so
  that `%Y` gives four digits.
- The concept name code sequence is kept as an empty list of items. Item
  contents are not modelled, since the plugin never adds any.
- `hdr.spacing`, `hdr.imagePositions`, `hdr.orientation` and the axes'
  origins and spacings are fixed float and array metadata, and are not
  modelled.
- Logging is not modelled.
- Text.ParseInt: models `int()` on an optional sign and ASCII decimal
  digits only. Python also accepts surrounding whitespace, underscores
  between digits and non-ASCII decimal digits. Python 3.11 and later also
  raise ValueError on a text of more than 4300 digits, by default; the
  model has no such limit.
- Text.Lower: lower-cases ASCII letters only. Python's `str.lower` also
  maps non-ASCII letters.
- Plugin.PdfPlugin.ReadImage: the first element of the returned tuple
  (`hdr` or `True`) is not modelled. In the encapsulation branch the source
  returns `None` as the second element (line 93) and hands the dataset over
  only through `hdr.DicomHeaderDict = [[(None, None, ds)]]` (line 90); the
  model returns the dataset as the read's data as well, and reduces
  `DicomHeaderDict` to `Some(ds)`. The encapsulation branch's
  `hdr.tags = [[0]]` list is modelled as the map {0: [0]}.
- Plugin.PdfPlugin.RasterizeInto: the pixel array is a value. Reassigning
  `si.shape` in place, and the view that `np.rot90` returns, are modelled
  as new values.
- Plugin.PdfPlugin.SetTags: the assignments to spacing, positions and
  orientation that happen before an IndexError are not modelled, so on
  that error the modelled header is unchanged.
