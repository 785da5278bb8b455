/** `PDFPlugin._set_tags`: from the array's shape and the header's colour
    flag, the axis descriptors (an optional slice axis, then row and column,
    then an optional rgb axis) and the tag table that addresses each slice. */
module Tags {
  import opened Base

  /** An axis descriptor: a uniform axis has a length, a variable axis a list
      of labels. Origins (always 0) and spacings (always 1.0) are not kept. */
  datatype Axis =
    | UniformLengthAxis(name: string, n: nat)
    | VariableAxis(name: string, values: seq<string>)

  const RGB_LABELS: seq<string> := ["r", "g", "b"]

  /** The shape without the trailing colour axis when the data is colour
      (`si.shape[:-1]`, which is empty for an empty shape). */
  function SpatialShape(shape: seq<nat>, color: bool): (spatial: seq<nat>)
    ensures color && |shape| > 0 ==> spatial == shape[..|shape| - 1]
    ensures !color || |shape| == 0 ==> spatial == shape
  {
    if color && |shape| > 0 then shape[..|shape| - 1] else shape
  }

  /** `nz`: the slice count, 1 when there is no slice axis. */
  function SliceCount(spatial: seq<nat>): nat {
    if |spatial| > 2 then spatial[|spatial| - 3] else 1
  }

  /** Lines 157-190: fewer than two spatial extents raise IndexError;
      otherwise row and column take the last two spatial extents, a slice axis
      of the third-last extent is put in front when there are more than two,
      and an rgb axis is put last for colour data. */
  function Axes(shape: seq<nat>, color: bool): (r: Result<seq<Axis>>)
    ensures r.Err? <==> |SpatialShape(shape, color)| < 2
    ensures r.Err? ==> r.error == IndexOutOfRange
    ensures r.Ok? ==> var spatial, slice := SpatialShape(shape, color), |SpatialShape(shape, color)| > 2;
      var row := if slice then 1 else 0;
      && |r.value| == row + 2 + (if color then 1 else 0)
      && (slice ==> r.value[0] == UniformLengthAxis("slice", spatial[|spatial| - 3]))
      && r.value[row] == UniformLengthAxis("row", spatial[|spatial| - 2])
      && r.value[row + 1] == UniformLengthAxis("column", spatial[|spatial| - 1])
      && (color ==> r.value[|r.value| - 1] == VariableAxis("rgb", RGB_LABELS))
  {
    var spatial := SpatialShape(shape, color);
    if |spatial| < 2 then Err(IndexOutOfRange)
    else
      var planar := [UniformLengthAxis("row", spatial[|spatial| - 2]), UniformLengthAxis("column", spatial[|spatial| - 1])];
      var withSlice := if |spatial| > 2 then [UniformLengthAxis("slice", spatial[|spatial| - 3])] + planar else planar;
      Ok(if color then withSlice + [VariableAxis("rgb", RGB_LABELS)] else withSlice)
  }

  /** The number of entries along an axis. */
  function Length(axis: Axis): nat {
    match axis
    case UniformLengthAxis(_, n) => n
    case VariableAxis(_, values) => |values|
  }

  function Lengths(axes: seq<Axis>): (lengths: seq<nat>)
    ensures |lengths| == |axes|
  {
    seq(|axes|, i requires 0 <= i < |axes| => Length(axes[i]))
  }

  /** Colour data with a slice axis: the four axes cover the last four
      extents. */
  lemma ColourVolumeLengths(shape: seq<nat>)
    requires |shape| >= 4 && shape[|shape| - 1] == 3
    ensures Axes(shape, true).Ok?
    ensures Lengths(Axes(shape, true).value) == shape[|shape| - 4..]
  {
    var n := |shape|;
    assert SpatialShape(shape, true) == shape[..n - 1];
    var axes := Axes(shape, true).value;
    assert axes == [UniformLengthAxis("slice", shape[n - 4]), UniformLengthAxis("row", shape[n - 3]),
                    UniformLengthAxis("column", shape[n - 2]), VariableAxis("rgb", RGB_LABELS)];
    assert Lengths(axes) == [shape[n - 4], shape[n - 3], shape[n - 2], shape[n - 1]];
  }

  /** Colour data without a slice axis: row, column and rgb cover the last
      three extents. */
  lemma ColourPlaneLengths(shape: seq<nat>)
    requires |shape| == 3 && shape[2] == 3
    ensures Axes(shape, true).Ok?
    ensures Lengths(Axes(shape, true).value) == shape
  {
    assert SpatialShape(shape, true) == shape[..2];
    var axes := Axes(shape, true).value;
    assert axes == [UniformLengthAxis("row", shape[0]), UniformLengthAxis("column", shape[1]),
                    VariableAxis("rgb", RGB_LABELS)];
    assert Lengths(axes) == [shape[0], shape[1], shape[2]];
  }

  /** Grey data with a slice axis: slice, row and column cover the last three
      extents. */
  lemma GreyVolumeLengths(shape: seq<nat>)
    requires |shape| >= 3
    ensures Axes(shape, false).Ok?
    ensures Lengths(Axes(shape, false).value) == shape[|shape| - 3..]
  {
    var n := |shape|;
    var axes := Axes(shape, false).value;
    assert axes == [UniformLengthAxis("slice", shape[n - 3]), UniformLengthAxis("row", shape[n - 2]),
                    UniformLengthAxis("column", shape[n - 1])];
    assert Lengths(axes) == [shape[n - 3], shape[n - 2], shape[n - 1]];
  }

  /** Grey data without a slice axis: row and column cover the whole
      shape. */
  lemma GreyPlaneLengths(shape: seq<nat>)
    requires |shape| == 2
    ensures Axes(shape, false).Ok?
    ensures Lengths(Axes(shape, false).value) == shape
  {
    var axes := Axes(shape, false).value;
    assert axes == [UniformLengthAxis("row", shape[0]), UniformLengthAxis("column", shape[1])];
    assert Lengths(axes) == [shape[0], shape[1]];
  }

  /** The axes describe the trailing extents of the array: for colour data
      whose last extent is 3, and at most three spatial extents, they describe
      the whole shape; with more, only the last three spatial extents (and
      colour) are described. */
  lemma AxesDescribeShape(shape: seq<nat>, color: bool)
    requires |SpatialShape(shape, color)| >= 2
    requires color ==> shape[|shape| - 1] == 3
    ensures Axes(shape, color).Ok?
    ensures var spatial := SpatialShape(shape, color);
      var described := (if |spatial| > 2 then 3 else 2) + (if color then 1 else 0);
      Lengths(Axes(shape, color).value) == shape[|shape| - described..]
  {
    var n := |shape|;
    if color {
      assert |SpatialShape(shape, color)| == n - 1;
      if n - 1 > 2 {
        ColourVolumeLengths(shape);
      } else {
        ColourPlaneLengths(shape);
        assert shape[n - 3..] == shape;
      }
    } else {
      if n > 2 {
        GreyVolumeLengths(shape);
      } else {
        GreyPlaneLengths(shape);
        assert shape[n - 2..] == shape;
      }
    }
  }

  /** Lines 192-194: slice k is tagged with the one-element array [0], for
      every k below nz. */
  function TagTable(nz: nat): (tags: map<nat, seq<int>>)
    ensures forall k: nat :: k in tags <==> k < nz
    ensures forall k :: k in tags ==> tags[k] == [0]
  {
    if nz == 0 then map[] else TagTable(nz - 1)[nz - 1 := [0]]
  }

  /** The tag loop as the source runs it, one slice at a time. */
  method BuildTags(nz: nat) returns (tags: map<nat, seq<int>>)
    ensures forall k: nat :: k in tags <==> k < nz
    ensures forall k :: k in tags ==> tags[k] == [0]
  {
    tags := map[];
    for slice := 0 to nz
      invariant forall k: nat :: k in tags <==> k < slice
      invariant forall k :: k in tags ==> tags[k] == [0]
    {
      tags := tags[slice := [0]];
    }
  }

  /** There is one tag per entry of the slice axis, numbered from 0 without
      gaps, and a single tag 0 when there is no slice axis. */
  lemma TagsFollowSliceAxis(shape: seq<nat>, color: bool)
    requires Axes(shape, color).Ok?
    ensures var axes := Axes(shape, color).value;
      var tags := TagTable(SliceCount(SpatialShape(shape, color)));
      && (axes[0].name == "slice" ==> forall k: nat :: k in tags <==> k < Length(axes[0]))
      && (axes[0].name != "slice" ==> forall k: nat :: k in tags <==> k == 0)
  {
  }
}
