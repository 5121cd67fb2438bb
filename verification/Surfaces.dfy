/** Surfaces drawn on in place, with signed coordinates clipped before any index is formed. */
module Surfaces {
  import opened Wrappers
  import opened Powers
  import opened MachineIntegers
  import opened DecimalExponents
  import opened Timing
  import opened Colours
  import opened Images

  type I32 = i: int | -0x8000_0000 <= i <= 0x7FFF_FFFF

  /** A side of a surface whose pixels fit in memory. */
  type Extent = n: nat | n <= 0x3FFF_FFFF_FFFF_FFFF

  function NegativeMagnitude(value: I32): nat {
    if value < 0 then -(value + 1) + 1 else 0
  }

  /** Whether position i of a span with this origin falls inside the limit. */
  predicate Lands(origin: int, i: int, limit: nat) { 0 <= origin + i < limit }

  datatype Span = Span(local: nat, start: nat, count: nat)

  /** clip_axis_span: exactly the positions of the span that fall inside the surface. */
  function ClipAxisSpan(origin: I32, length: Extent, limit: Extent): (r: Option<Span>)
    ensures r.None? ==> forall i :: 0 <= i < length ==> !Lands(origin, i, limit)
    ensures r.Some? ==> var s := r.value;
      && 0 < s.count && s.local + s.count <= length && s.start == origin + s.local && s.start + s.count <= limit
      && forall i :: 0 <= i < length ==> (Lands(origin, i, limit) <==> s.local <= i < s.local + s.count)
  {
    var skipped := NegativeMagnitude(origin);
    if length == 0 || limit == 0 || skipped >= length then None
    else
      var start: nat := if origin >= 0 then origin else 0;
      if start >= limit then None
      else
        var visible: nat := length - skipped;
        var available: nat := limit - start;
        Some(Span(skipped, start, if visible > available then available else visible))
  }

  datatype BlitSpan = BlitSpan(source: nat, destination: nat, count: nat)

  /** clip_blit_axis: exactly the positions inside both surfaces. */
  function ClipBlitAxis(sourceOrigin: I32, destinationOrigin: I32, length: Extent, sourceLimit: Extent,
                        destinationLimit: Extent): (r: Option<BlitSpan>)
    ensures r.None? ==>
      forall i :: 0 <= i < length ==> !(Lands(sourceOrigin, i, sourceLimit) && Lands(destinationOrigin, i, destinationLimit))
    ensures r.Some? ==> var s := r.value;
      var local := s.source - sourceOrigin;
      && 0 < s.count && 0 <= local && local + s.count <= length && s.destination == destinationOrigin + local
      && s.source + s.count <= sourceLimit && s.destination + s.count <= destinationLimit
      && forall i :: 0 <= i < length ==>
           (Lands(sourceOrigin, i, sourceLimit) && Lands(destinationOrigin, i, destinationLimit)
            <==> local <= i < local + s.count)
  {
    var sourceNegative, destinationNegative := NegativeMagnitude(sourceOrigin), NegativeMagnitude(destinationOrigin);
    var skipped := if sourceNegative > destinationNegative then sourceNegative else destinationNegative;
    if length == 0 || sourceLimit == 0 || destinationLimit == 0 || skipped >= length then None
    else
      var source: nat := if sourceOrigin >= 0 then sourceOrigin + skipped else skipped - sourceNegative;
      var destination: nat := if destinationOrigin >= 0 then destinationOrigin + skipped else skipped - destinationNegative;
      if source >= sourceLimit || destination >= destinationLimit then None
      else
        var visible: nat := length - skipped;
        var inSource: nat := sourceLimit - source;
        var cut := if visible > inSource then inSource else visible;
        var inDestination: nat := destinationLimit - destination;
        Some(BlitSpan(source, destination, if cut > inDestination then inDestination else cut))
  }

  /** coordinate_from_local: the surface position, when there is one. */
  function CoordinateFromLocal(origin: I32, local: Extent, limit: Extent): (r: Option<nat>)
    ensures r == if Lands(origin, local, limit) then Some(origin + local) else None
  {
    var negative := NegativeMagnitude(origin);
    if origin >= 0 then
      if origin + local >= limit then None else Some(origin + local)
    else if local < negative then None
    else if local - negative >= limit then None
    else Some(local - negative)
  }

  /** scaled_offset: the source offset of a destination offset, without forming the wide product. */
  method ScaledOffset(local: Extent, sourceSpan: Extent, destinationSpan: Extent) returns (ok: bool, offset: Extent)
    ensures ok <==> sourceSpan > 0 && destinationSpan > 0
    ensures ok && local < destinationSpan ==> offset == local * sourceSpan / destinationSpan < sourceSpan
  {
    hide NextBoundary;
    hide PartitionIndex;
    if sourceSpan == 0 || destinationSpan == 0 {
      return false, 0;
    }
    var partitioned, partition, _ := CyclePartition(local, destinationSpan, sourceSpan, true, false);
    assert partitioned;
    WithinCycle(local, destinationSpan, sourceSpan);
    ok, offset := true, partition;
  }

  lemma WithinCycle(position: nat, cycle: nat, count: nat)
    requires cycle > 0
    ensures position < cycle ==> PartitionIndex(position % cycle, cycle, count) == position * count / cycle
  {
    if position < cycle {
      DivModUnique(position, cycle, 0, position);
    }
  }

  lemma ProductAgainstLimit(a: nat, b: nat)
    requires a > 0 && b > 0
    ensures a > SIZE_MAX / b ==> a * b > SIZE_MAX
    ensures a <= SIZE_MAX / b ==> 0 < a * b <= SIZE_MAX
    ensures a <= a * b && b <= a * b
  {
    if a > SIZE_MAX / b {
      QuotientExceeded(SIZE_MAX, b, a);
    } else {
      ProductFits(SIZE_MAX, b, a);
    }
    MulMonotone(1, b, a);
    MulMonotone(1, a, b);
  }

  ghost predicate Filled(i: Image, pixel: Pixel) {
    forall k :: 0 <= k < |i.pixels| ==> i.pixels[k] == pixel
  }

  class Surface {
    var width: Extent
    var height: Extent
    var pixels: array<Pixel>

    ghost predicate Valid()
      reads this
    {
      pixels.Length == width * height
    }

    ghost function Picture(): (i: Image)
      reads this, pixels
      ensures Valid() ==> i.Valid()
    {
      Image(width, height, pixels[..])
    }

    /** infiltratr_surface_copy onto a new surface. */
    constructor Copy(source: Surface)
      requires source.Valid()
      ensures Valid() && fresh(pixels) && Picture() == source.Picture()
    {
      width, height := source.width, source.height;
      var copy := new Pixel[source.pixels.Length];
      pixels := copy;
      new;
      var i := 0;
      while i < pixels.Length
        invariant i <= pixels.Length && pixels.Length == source.pixels.Length && fresh(pixels) && pixels == copy
        invariant width == source.width && height == source.height
        invariant source.pixels == old(source.pixels)
        invariant pixels[..i] == source.pixels[..i]
      {
        pixels[i] := source.pixels[i];
        i := i + 1;
      }
    }

    /** infiltratr_surface_resize: fails only for empty or unrepresentable dimensions; the contents of a
        resized surface are arbitrary. */
    method Resize(newWidth: Size, newHeight: Size) returns (ok: bool)
      requires Valid()
      modifies this
      ensures ok <==> newWidth > 0 && newHeight > 0 && newWidth * newHeight <= SIZE_MAX / 4
      ensures ok ==> Valid() && width == newWidth && height == newHeight
      ensures ok ==> pixels == old(pixels) || fresh(pixels)
      ensures !ok ==> width == old(width) && height == old(height) && pixels == old(pixels)
    {
      if newWidth == 0 || newHeight == 0 {
        return false;
      }
      ProductAgainstLimit(newWidth, newHeight);
      if newWidth > SIZE_MAX / newHeight {
        return false;
      }
      var count: nat := newWidth * newHeight;
      if count > SIZE_MAX / 4 {
        return false;
      }
      if width == newWidth && height == newHeight && pixels.Length != 0 {
        return true;
      }
      pixels := new Pixel[count];
      width, height := newWidth, newHeight;
      ok := true;
    }

    /** infiltratr_surface_clear. */
    method Clear(colour: Colour)
      requires Valid()
      modifies pixels
      ensures Valid() && Filled(Picture(), Pack(colour))
    {
      hide Pack;
      var pixel := Pack(colour);
      var i := 0;
      while i < pixels.Length
        invariant i <= pixels.Length
        invariant forall k :: 0 <= k < i ==> pixels[k] == pixel
        invariant Valid()
      {
        pixels[i] := pixel;
        i := i + 1;
      }
    }

    /** The colour stored at a position inside the surface. */
    function Stored(x: nat, y: nat): (c: Colour)
      requires Valid() && x < width && y < height
      reads this, pixels
      ensures c == Picture().At(x, y)
    {
      IndexInside(x, y, width, height);
      Unpack(pixels[y * width + x])
    }

    /** blend_pixel_at. */
    method BlendPixelAt(x: nat, y: nat, source: Colour)
      requires Valid()
      modifies pixels
      ensures Valid()
      ensures Picture() == if x < width && y < height
        then old(Picture()).Put(x, y, Over(source, old(Picture()).At(x, y))) else old(Picture())
    {
      if source.a == 0 || x >= width || y >= height {
        if x < width && y < height {
          PutSame(Picture(), x, y);
        }
        return;
      }
      IndexInside(x, y, width, height);
      hide Pack;
      hide Unpack;
      hide Composite;
      if source.a == 255 {
        OpaqueIsSource(source, Stored(x, y));
        pixels[y * width + x] := Pack(source);
        return;
      }
      var existing := Unpack(pixels[y * width + x]);
      pixels[y * width + x] := Pack(Composite(source, existing));
    }
  }

  /** snapshot_source_if_needed: reads never see what this drawing has already written. */
  method SnapshotIfNeeded(destination: Surface, source: Surface) returns (input: Surface)
    requires source.Valid()
    requires destination != source ==> destination.pixels != source.pixels
    ensures input.Valid() && input.Picture() == source.Picture()
    ensures input.pixels != destination.pixels && input != destination
  {
    if destination != source {
      return source;
    }
    input := new Surface.Copy(source);
  }

  /** Where an unscaled blit reaches nothing of the source, it leaves the destination alone. */
  lemma BlitLeaves(p: Placement, source: Image, before: Image, u: int, v: int)
    requires source.Valid() && before.Valid() && p.width == p.sourceWidth && p.height == p.sourceHeight && p.blends
    requires !(0 <= u - p.x < p.width && Lands(p.sourceX, u - p.x, source.width))
      || !(0 <= v - p.y < p.height && Lands(p.sourceY, v - p.y, source.height))
    ensures p.Leaves(source, before, u, v)
  {
    UnscaledSource(p, source, u, v);
  }

  ghost predicate ClipArguments(p: Placement, source: Image, before: Image) {
    && -0x8000_0000 <= p.sourceX <= 0x7FFF_FFFF && -0x8000_0000 <= p.sourceY <= 0x7FFF_FFFF
    && -0x8000_0000 <= p.x <= 0x7FFF_FFFF && -0x8000_0000 <= p.y <= 0x7FFF_FFFF
    && p.width <= 0x3FFF_FFFF_FFFF_FFFF && p.height <= 0x3FFF_FFFF_FFFF_FFFF
    && p.sourceWidth <= 0x3FFF_FFFF_FFFF_FFFF && p.sourceHeight <= 0x3FFF_FFFF_FFFF_FFFF
    && source.width <= 0x3FFF_FFFF_FFFF_FFFF && source.height <= 0x3FFF_FFFF_FFFF_FFFF
    && before.width <= 0x3FFF_FFFF_FFFF_FFFF && before.height <= 0x3FFF_FFFF_FFFF_FFFF
  }

  /** The clipped columns and rows lie inside the placed rectangle and both pictures, in step. */
  ghost predicate InStep(p: Placement, source: Image, before: Image, column: BlitSpan, row: BlitSpan) {
    && 0 <= column.source - p.sourceX == column.destination - p.x
    && column.destination - p.x + column.count <= p.width
    && column.source + column.count <= source.width && column.destination + column.count <= before.width
    && 0 <= row.source - p.sourceY == row.destination - p.y
    && row.destination - p.y + row.count <= p.height
    && row.source + row.count <= source.height && row.destination + row.count <= before.height
  }

  /** Outside the clipped rows and columns the picture stays as it is. */
  ghost predicate LeavesRest(p: Placement, source: Image, before: Image, column: BlitSpan, row: BlitSpan)
    requires source.Valid() && before.Valid()
  {
    forall u, v :: before.Inside(u, v)
      && (!(0 <= u - column.destination < column.count) || !(0 <= v - row.destination < row.count))
      ==> p.Leaves(source, before, u, v)
  }

  /** One pixel of a blit. */
  method DrawPixel(destination: Surface, ghost before: Image, ghost source: Image, ghost p: Placement,
                   u: nat, v: nat, colour: Colour)
    requires destination.Valid() && before.Valid() && source.Valid() && p.blends
    requires DrawnUpTo(destination.Picture(), before, source, p, u, v) && destination.Picture().Inside(u, v)
    requires colour == p.Source(source, u, v)
    modifies destination.pixels
    ensures destination.Valid() && DrawnUpTo(destination.Picture(), before, source, p, u + 1, v)
  {
    DrawOne(destination.Picture(), before, source, p, u, v);
    destination.BlendPixelAt(u, v, colour);
    assert p.Wanted(source, before, u, v) == Over(colour, before.At(u, v));
    hide *;
  }

  method BlitRow(destination: Surface, input: Surface, ghost p: Placement, ghost before: Image,
                 column: BlitSpan, row: BlitSpan, y: nat)
    requires destination.Valid() && input.Valid() && input.pixels != destination.pixels && before.Valid()
    requires InStep(p, input.Picture(), before, column, row) && y < row.count
    requires p.width == p.sourceWidth && p.height == p.sourceHeight && p.blends
    requires LeavesRest(p, input.Picture(), before, column, row)
    requires DrawnUpTo(destination.Picture(), before, input.Picture(), p, 0, row.destination + y)
    modifies destination.pixels
    ensures destination.Valid() && input.Picture() == old(input.Picture())
    ensures DrawnUpTo(destination.Picture(), before, input.Picture(), p, 0, row.destination + y + 1)
  {
    ghost var picture := input.Picture();
    var v := row.destination + y;
    SkipTo(destination.Picture(), before, picture, p, 0, v, column.destination, v);
    var x := 0;
    while x < column.count
      invariant x <= column.count
      invariant destination.Valid() && input.Picture() == picture
      invariant DrawnUpTo(destination.Picture(), before, picture, p, column.destination + x, v)
    {
      var u := column.destination + x;
      UnscaledSource(p, picture, u, v);
      var colour := input.Stored(column.source + x, row.source + y);
      DrawPixel(destination, before, picture, p, u, v, colour);
      x := x + 1;
    }
    SkipTo(destination.Picture(), before, picture, p, column.destination + x, v, 0, v + 1);
  }

  /** Nothing of the source reaches the destination. */
  ghost predicate LeavesAll(p: Placement, source: Image, before: Image)
    requires source.Valid() && before.Valid()
  {
    forall u, v :: before.Inside(u, v) ==> p.Leaves(source, before, u, v)
  }

  /** Clipping both axes finds everything there is to draw. */
  lemma ClippedRegion(p: Placement, source: Image, before: Image, column: Option<BlitSpan>, row: Option<BlitSpan>)
    requires source.Valid() && before.Valid()
    requires p.width == p.sourceWidth && p.height == p.sourceHeight && p.blends
    requires ClipArguments(p, source, before)
    requires column == ClipBlitAxis(p.sourceX, p.x, p.width, source.width, before.width)
    requires row == ClipBlitAxis(p.sourceY, p.y, p.height, source.height, before.height)
    ensures column.None? || row.None? ==> LeavesAll(p, source, before)
    ensures column.Some? && row.Some? ==>
      InStep(p, source, before, column.value, row.value) && LeavesRest(p, source, before, column.value, row.value)
  {
    forall u, v | before.Inside(u, v) && (column.None? || row.None?
        || !(0 <= u - column.value.destination < column.value.count)
        || !(0 <= v - row.value.destination < row.value.count))
      ensures p.Leaves(source, before, u, v)
    {
      ClippedAway(p, source, before, u, v, column, row);
    }
    hide ClipBlitAxis;
    hide Placement.Leaves;
  }

  /** Outside the clipped rows and columns nothing is drawn. */
  lemma ClippedAway(p: Placement, source: Image, before: Image, u: int, v: int,
                    column: Option<BlitSpan>, row: Option<BlitSpan>)
    requires source.Valid() && before.Valid() && before.Inside(u, v)
    requires p.width == p.sourceWidth && p.height == p.sourceHeight && p.blends
    requires ClipArguments(p, source, before)
    requires column == ClipBlitAxis(p.sourceX, p.x, p.width, source.width, before.width)
    requires row == ClipBlitAxis(p.sourceY, p.y, p.height, source.height, before.height)
    requires column.None? || row.None? || !(0 <= u - column.value.destination < column.value.count)
      || !(0 <= v - row.value.destination < row.value.count)
    ensures p.Leaves(source, before, u, v)
  {
    var i, j := u - p.x, v - p.y;
    assert Lands(p.x, i, before.width) && Lands(p.y, j, before.height);
    if 0 <= i < p.width {
      assert Lands(p.sourceX, i, source.width) <==>
        column.Some? && 0 <= u - column.value.destination < column.value.count;
    }
    if 0 <= j < p.height {
      assert Lands(p.sourceY, j, source.height) <==>
        row.Some? && 0 <= v - row.value.destination < row.value.count;
    }
    hide ClipBlitAxis;
    BlitLeaves(p, source, before, u, v);
  }

  /** The rows above the clipped region need no drawing. */
  lemma SkipToRegion(before: Image, source: Image, p: Placement, column: BlitSpan, row: BlitSpan)
    requires before.Valid() && source.Valid() && LeavesRest(p, source, before, column, row)
    ensures DrawnUpTo(before, before, source, p, 0, row.destination)
  {
    hide Placement.Leaves;
    StartDrawing(before, source, p);
    hide DrawnUpTo;
    SkipTo(before, before, source, p, 0, 0, 0, row.destination);
  }

  /** Nor do the rows below it. */
  lemma SkipBelowRegion(now: Image, before: Image, source: Image, p: Placement, column: BlitSpan, row: BlitSpan)
    requires before.Valid() && source.Valid() && LeavesRest(p, source, before, column, row)
    requires row.destination + row.count <= before.height
    requires DrawnUpTo(now, before, source, p, 0, row.destination + row.count)
    ensures Drawn(now, before, source, p)
  {
    hide Placement.Leaves;
    hide DrawnUpTo;
    SkipTo(now, before, source, p, 0, row.destination + row.count, 0, before.height);
    FinishDrawing(now, before, source, p);
  }

  lemma NothingToDraw(before: Image, source: Image, p: Placement)
    requires before.Valid() && source.Valid() && LeavesAll(p, source, before)
    ensures Drawn(before, before, source, p)
  {
    forall u, v | before.Inside(u, v) ensures before.At(u, v) == p.Wanted(source, before, u, v) {
      assert p.Leaves(source, before, u, v);
    }
    hide Image.At;
    hide Placement.Wanted;
  }

  /** surface_blit_region_core: every destination pixel gets what the signed-coordinate description
      says, also when a surface is blitted onto itself. */
  method BlitRegion(destination: Surface, source: Surface, sourceX: I32, sourceY: I32,
                    sourceWidth: Extent, sourceHeight: Extent, destinationX: I32, destinationY: I32)
    requires destination.Valid() && source.Valid()
    requires destination != source ==> destination.pixels != source.pixels
    modifies destination.pixels
    ensures destination.Valid()
    ensures Drawn(destination.Picture(), old(destination.Picture()), old(source.Picture()),
      Placement(sourceX, sourceY, sourceWidth, sourceHeight, destinationX, destinationY, sourceWidth, sourceHeight, true))
  {
    hide ClipBlitAxis;
    ghost var before, picture := destination.Picture(), source.Picture();
    ghost var p :=
      Placement(sourceX, sourceY, sourceWidth, sourceHeight, destinationX, destinationY, sourceWidth, sourceHeight, true);
    var input := SnapshotIfNeeded(destination, source);
    var column := ClipBlitAxis(sourceX, destinationX, sourceWidth, input.width, destination.width);
    var row := ClipBlitAxis(sourceY, destinationY, sourceHeight, input.height, destination.height);
    ClippedRegion(p, picture, before, column, row);
    hide LeavesAll;
    hide LeavesRest;
    hide Drawn;
    hide DrawnUpTo;
    if column.None? || row.None? {
      NothingToDraw(before, picture, p);
      return;
    }
    SkipToRegion(before, picture, p, column.value, row.value);
    var y := 0;
    while y < row.value.count
      invariant y <= row.value.count
      invariant destination.Valid() && input.Valid() && input.pixels != destination.pixels
      invariant input.Picture() == picture
      invariant DrawnUpTo(destination.Picture(), before, picture, p, 0, row.value.destination + y)
    {
      BlitRow(destination, input, p, before, column.value, row.value, y);
      y := y + 1;
    }
    SkipBelowRegion(destination.Picture(), before, picture, p, column.value, row.value);
  }

  /** Outside the visible span of the destination nothing is drawn. */
  ghost predicate LeavesOutsideSpans(p: Placement, source: Image, before: Image, column: Span, row: Span)
    requires source.Valid() && before.Valid()
  {
    forall u, v :: before.Inside(u, v)
      && (!(0 <= u - column.start < column.count) || !(0 <= v - row.start < row.count))
      ==> p.Leaves(source, before, u, v)
  }

  ghost predicate SpansFit(p: Placement, before: Image, column: Span, row: Span) {
    && column.start == p.x + column.local && column.local + column.count <= p.width
    && column.start + column.count <= before.width
    && row.start == p.y + row.local && row.local + row.count <= p.height
    && row.start + row.count <= before.height
  }

  /** Clipping the destination rectangle alone loses nothing that scaling could reach. */
  lemma VisibleRegion(p: Placement, source: Image, before: Image, column: Option<Span>, row: Option<Span>)
    requires source.Valid() && before.Valid() && ClipArguments(p, source, before)
    requires BlendsOrBlank(p, before)
    requires column == ClipAxisSpan(p.x, p.width, before.width) && row == ClipAxisSpan(p.y, p.height, before.height)
    ensures column.None? || row.None? ==> LeavesAll(p, source, before)
    ensures column.Some? && row.Some? ==>
      SpansFit(p, before, column.value, row.value) && LeavesOutsideSpans(p, source, before, column.value, row.value)
  {
    forall u, v | before.Inside(u, v) && (column.None? || row.None?
        || !(0 <= u - column.value.start < column.value.count) || !(0 <= v - row.value.start < row.value.count))
      ensures p.Leaves(source, before, u, v)
    {
      assert Lands(p.x, u - p.x, before.width) && Lands(p.y, v - p.y, before.height);
    }
    hide ClipAxisSpan;
    hide Placement.Leaves;
  }

  /** A source outside its picture leaves the destination as it is. */
  ghost predicate BlendsOrBlank(p: Placement, before: Image)
    requires before.Valid()
  {
    p.blends || forall u, v :: before.Inside(u, v) ==> before.At(u, v) == TRANSPARENT
  }

  lemma ScaledSource(p: Placement, source: Image, before: Image, u: int, v: int, offsetX: int, offsetY: int)
    requires source.Valid() && before.Valid() && BlendsOrBlank(p, before) && before.Inside(u, v)
    requires 0 <= u - p.x < p.width && 0 <= v - p.y < p.height && p.sourceWidth > 0 && p.sourceHeight > 0
    requires offsetX == (u - p.x) * p.sourceWidth / p.width && offsetY == (v - p.y) * p.sourceHeight / p.height
    ensures p.Source(source, u, v) == source.At(p.sourceX + offsetX, p.sourceY + offsetY)
    ensures !Lands(p.sourceX, offsetX, source.width) || !Lands(p.sourceY, offsetY, source.height) ==>
      p.Leaves(source, before, u, v)
  {
  }

  /** One visible row of a scaled blit. */
  method ScaledRow(destination: Surface, input: Surface, ghost p: Placement, ghost before: Image,
                   sourceX: I32, sourceWidth: Extent, destinationWidth: Extent, column: Span, v: nat,
                   sourceRow: nat, ghost offsetY: nat)
    requires destination.Valid() && input.Valid() && input.pixels != destination.pixels && before.Valid()
    requires p.sourceX == sourceX && p.sourceWidth == sourceWidth && p.width == destinationWidth
    requires p.blends && sourceWidth > 0 && p.sourceHeight > 0 && column.start == p.x + column.local
    requires column.local + column.count <= p.width && column.start + column.count <= before.width
    requires 0 <= v - p.y < p.height && v < before.height
    requires offsetY == (v - p.y) * p.sourceHeight / p.height && sourceRow == p.sourceY + offsetY < input.height
    requires RowLeaves(p, input.Picture(), before, column, v)
    requires DrawnUpTo(destination.Picture(), before, input.Picture(), p, 0, v)
    modifies destination.pixels
    ensures destination.Valid() && input.Picture() == old(input.Picture())
    ensures DrawnUpTo(destination.Picture(), before, input.Picture(), p, 0, v + 1)
  {
    ghost var picture := input.Picture();
    SkipInRow(destination.Picture(), before, picture, p, column, v, 0);
    var x := 0;
    while x < column.count
      invariant x <= column.count
      invariant destination.Valid() && input.Picture() == picture
      invariant DrawnUpTo(destination.Picture(), before, picture, p, column.start + x, v)
    {
      var ok, offset := ScaledOffset(column.local + x, sourceWidth, destinationWidth);
      assert ok;
      ghost var now := destination.Picture();
      var u := column.start + x;
      ScaledSource(p, picture, before, u, v, offset, offsetY);
      var position := CoordinateFromLocal(sourceX, offset, input.width);
      if position.Some? {
        var colour := input.Stored(position.value, sourceRow);
        DrawPixel(destination, before, picture, p, u, v, colour);
      } else {
        SkipOne(now, before, picture, p, u, v);
      }
      x := x + 1;
    }
    SkipInRow(destination.Picture(), before, picture, p, column, v, x);
  }

  /** The visible columns are all there is to draw in a row. */
  ghost predicate RowLeaves(p: Placement, source: Image, before: Image, column: Span, v: int)
    requires source.Valid() && before.Valid()
  {
    forall u :: before.Inside(u, v) && !(0 <= u - column.start < column.count) ==> p.Leaves(source, before, u, v)
  }

  lemma SkipOne(now: Image, before: Image, source: Image, p: Placement, u: int, v: int)
    requires source.Valid() && before.Valid() && DrawnUpTo(now, before, source, p, u, v)
    requires p.Leaves(source, before, u, v)
    ensures DrawnUpTo(now, before, source, p, u + 1, v)
  {
    hide Placement.Leaves;
    hide DrawnUpTo;
    SkipTo(now, before, source, p, u, v, u + 1, v);
  }

  /** Before the visible columns of a row, and after them. */
  lemma SkipInRow(now: Image, before: Image, source: Image, p: Placement, column: Span, v: int, x: nat)
    requires source.Valid() && before.Valid() && RowLeaves(p, source, before, column, v) && 0 <= v
    requires x == 0 ==> DrawnUpTo(now, before, source, p, 0, v)
    requires x > 0 ==> x == column.count && DrawnUpTo(now, before, source, p, column.start + x, v)
    ensures x == 0 ==> DrawnUpTo(now, before, source, p, column.start, v)
    ensures x > 0 ==> DrawnUpTo(now, before, source, p, 0, v + 1)
  {
    hide Placement.Leaves;
    hide DrawnUpTo;
    if x == 0 {
      SkipTo(now, before, source, p, 0, v, column.start, v);
    } else {
      SkipTo(now, before, source, p, column.start + x, v, 0, v + 1);
    }
  }

  /** A row whose source row does not exist. */
  lemma SkipRow(now: Image, before: Image, source: Image, p: Placement, v: int, offsetY: int)
    requires source.Valid() && before.Valid() && BlendsOrBlank(p, before) && DrawnUpTo(now, before, source, p, 0, v)
    requires 0 <= v - p.y < p.height && p.sourceWidth > 0 && p.sourceHeight > 0
    requires offsetY == (v - p.y) * p.sourceHeight / p.height && !Lands(p.sourceY, offsetY, source.height)
    ensures DrawnUpTo(now, before, source, p, 0, v + 1)
  {
    forall u | before.Inside(u, v)
      ensures p.Leaves(source, before, u, v)
    {
      if 0 <= u - p.x < p.width {
        ScaledSource(p, source, before, u, v, (u - p.x) * p.sourceWidth / p.width, offsetY);
      }
    }
    hide Placement.Leaves;
    hide DrawnUpTo;
    SkipTo(now, before, source, p, 0, v, 0, v + 1);
  }

  lemma SkipToSpans(before: Image, source: Image, p: Placement, column: Span, row: Span)
    requires before.Valid() && source.Valid() && LeavesOutsideSpans(p, source, before, column, row)
    ensures DrawnUpTo(before, before, source, p, 0, row.start)
  {
    hide Placement.Leaves;
    StartDrawing(before, source, p);
    hide DrawnUpTo;
    SkipTo(before, before, source, p, 0, 0, 0, row.start);
  }

  lemma SkipBelowSpans(now: Image, before: Image, source: Image, p: Placement, column: Span, row: Span)
    requires before.Valid() && source.Valid() && LeavesOutsideSpans(p, source, before, column, row)
    requires row.start + row.count <= before.height
    requires DrawnUpTo(now, before, source, p, 0, row.start + row.count)
    ensures Drawn(now, before, source, p)
  {
    hide Placement.Leaves;
    hide DrawnUpTo;
    SkipTo(now, before, source, p, 0, row.start + row.count, 0, before.height);
    FinishDrawing(now, before, source, p);
  }

  lemma RowOfSpans(p: Placement, source: Image, before: Image, column: Span, row: Span, v: int)
    requires source.Valid() && before.Valid() && LeavesOutsideSpans(p, source, before, column, row)
    ensures RowLeaves(p, source, before, column, v)
  {
    hide Placement.Leaves;
  }

  /** The visible row y of a scaled blit: drawn when its source row exists, left alone otherwise. */
  method ScaledRowAt(destination: Surface, input: Surface, ghost p: Placement, ghost before: Image,
                     sourceX: I32, sourceY: I32, sourceWidth: Extent, sourceHeight: Extent,
                     destinationWidth: Extent, destinationHeight: Extent, column: Span, row: Span, y: nat)
    requires destination.Valid() && input.Valid() && input.pixels != destination.pixels && before.Valid()
    requires p.sourceX == sourceX && p.sourceWidth == sourceWidth && p.width == destinationWidth
    requires p.sourceY == sourceY && p.sourceHeight == sourceHeight && p.height == destinationHeight
    requires p.blends && sourceWidth > 0 && sourceHeight > 0 && SpansFit(p, before, column, row) && y < row.count
    requires LeavesOutsideSpans(p, input.Picture(), before, column, row)
    requires DrawnUpTo(destination.Picture(), before, input.Picture(), p, 0, row.start + y)
    modifies destination.pixels
    ensures destination.Valid() && input.Picture() == old(input.Picture())
    ensures DrawnUpTo(destination.Picture(), before, input.Picture(), p, 0, row.start + y + 1)
  {
    ghost var picture := input.Picture();
    var v := row.start + y;
    RowOfSpans(p, picture, before, column, row, v);
    hide LeavesOutsideSpans;
    hide RowLeaves;
    hide DrawnUpTo;
    var ok, offset := ScaledOffset(row.local + y, sourceHeight, destinationHeight);
    assert ok;
    var position := CoordinateFromLocal(sourceY, offset, input.height);
    if position.Some? {
      ScaledRow(destination, input, p, before, sourceX, sourceWidth, destinationWidth, column, v, position.value, offset);
    } else {
      SkipRow(destination.Picture(), before, picture, p, v, offset);
    }
  }

  /** surface_blit_region_scaled_nearest_core: clipping the destination first draws exactly what the
      unclipped signed-coordinate description says, also onto the source itself. */
  method BlitScaledNearest(destination: Surface, source: Surface, sourceX: I32, sourceY: I32,
                           sourceWidth: Extent, sourceHeight: Extent, destinationX: I32, destinationY: I32,
                           destinationWidth: Extent, destinationHeight: Extent)
    requires destination.Valid() && source.Valid()
    requires destination != source ==> destination.pixels != source.pixels
    modifies destination.pixels
    ensures destination.Valid()
    ensures Drawn(destination.Picture(), old(destination.Picture()), old(source.Picture()),
      Placement(sourceX, sourceY, sourceWidth, sourceHeight,
                destinationX, destinationY, destinationWidth, destinationHeight, true))
  {
    hide ClipAxisSpan;
    ghost var before, picture := destination.Picture(), source.Picture();
    ghost var p := Placement(sourceX, sourceY, sourceWidth, sourceHeight,
                             destinationX, destinationY, destinationWidth, destinationHeight, true);
    if sourceWidth == 0 || sourceHeight == 0 || destinationWidth == 0 || destinationHeight == 0 {
      return;
    }
    var input := SnapshotIfNeeded(destination, source);
    var column := ClipAxisSpan(destinationX, destinationWidth, destination.width);
    var row := ClipAxisSpan(destinationY, destinationHeight, destination.height);
    VisibleRegion(p, picture, before, column, row);
    hide LeavesAll;
    hide LeavesOutsideSpans;
    hide Drawn;
    hide DrawnUpTo;
    if column.None? || row.None? {
      NothingToDraw(before, picture, p);
      return;
    }
    SkipToSpans(before, picture, p, column.value, row.value);
    var y := 0;
    while y < row.value.count
      invariant y <= row.value.count
      invariant destination.Valid() && input.Valid() && input.pixels != destination.pixels
      invariant input.Picture() == picture
      invariant DrawnUpTo(destination.Picture(), before, picture, p, 0, row.value.start + y)
    {
      ScaledRowAt(destination, input, p, before, sourceX, sourceY, sourceWidth, sourceHeight,
                  destinationWidth, destinationHeight, column.value, row.value, y);
      y := y + 1;
    }
    SkipBelowSpans(destination.Picture(), before, picture, p, column.value, row.value);
  }

  /** One row of a copy, pixel for pixel. */
  method CopyRow(destination: Surface, input: Surface, ghost p: Placement, ghost before: Image,
                 column: Span, row: Span, inputColumn: nat, inputRow: nat, v: nat)
    requires destination.Valid() && input.Valid() && input.pixels != destination.pixels && before.Valid()
    requires !p.blends && p.width == p.sourceWidth && p.height == p.sourceHeight
    requires SpansFit(p, before, column, row) && row.start <= v < row.start + row.count
    requires inputColumn == p.sourceX + column.local && inputColumn + column.count <= input.width
    requires inputRow == p.sourceY + (v - p.y) < input.height
    requires RowLeaves(p, input.Picture(), before, column, v)
    requires DrawnUpTo(destination.Picture(), before, input.Picture(), p, 0, v)
    modifies destination.pixels
    ensures destination.Valid() && input.Picture() == old(input.Picture())
    ensures DrawnUpTo(destination.Picture(), before, input.Picture(), p, 0, v + 1)
  {
    ghost var picture := input.Picture();
    SkipInRow(destination.Picture(), before, picture, p, column, v, 0);
    var x := 0;
    while x < column.count
      invariant x <= column.count
      invariant destination.Valid() && input.Picture() == picture
      invariant DrawnUpTo(destination.Picture(), before, picture, p, column.start + x, v)
    {
      UnscaledSource(p, picture, column.start + x, v);
      CopyPixel(destination, input, p, before, column.start + x, v, inputColumn + x, inputRow);
      x := x + 1;
    }
    SkipInRow(destination.Picture(), before, picture, p, column, v, x);
  }

  /** One pixel of a copy. */
  method CopyPixel(destination: Surface, input: Surface, ghost p: Placement, ghost before: Image,
                   u: nat, v: nat, inputColumn: nat, inputRow: nat)
    requires destination.Valid() && input.Valid() && input.pixels != destination.pixels && before.Valid() && !p.blends
    requires destination.Picture().Inside(u, v) && input.Picture().Inside(inputColumn, inputRow)
    requires p.Source(input.Picture(), u, v) == input.Picture().At(inputColumn, inputRow)
    requires DrawnUpTo(destination.Picture(), before, input.Picture(), p, u, v)
    modifies destination.pixels
    ensures destination.Valid() && input.Picture() == old(input.Picture())
    ensures DrawnUpTo(destination.Picture(), before, input.Picture(), p, u + 1, v)
  {
    ghost var picture, now := input.Picture(), destination.Picture();
    DrawOne(now, before, picture, p, u, v);
    IndexInside(u, v, destination.width, destination.height);
    IndexInside(inputColumn, inputRow, input.width, input.height);
    PackUnpack(input.pixels[inputRow * input.width + inputColumn]);
    hide Pack;
    hide Unpack;
    hide DrawnUpTo;
    destination.pixels[v * destination.width + u] := input.pixels[inputRow * input.width + inputColumn];
    assert destination.Picture() == now.Put(u, v, p.Wanted(picture, before, u, v));
  }

  ghost predicate Blank(i: Image)
    requires i.Valid()
  {
    forall u, v :: i.Inside(u, v) ==> i.At(u, v) == TRANSPARENT
  }

  lemma ClearedIsBlank(i: Image)
    requires i.Valid() && Filled(i, Pack(TRANSPARENT))
    ensures Blank(i)
  {
    UnpackPack(TRANSPARENT);
    hide Pack;
    hide Unpack;
    forall u, v | i.Inside(u, v)
      ensures i.At(u, v) == TRANSPARENT
    {
      IndexInside(u, v, i.width, i.height);
    }
  }

  /** Every pixel of a picture is the one at the shifted position of the source. */
  ghost predicate ShowsWindow(now: Image, source: Image, sourceX: int, sourceY: int)
    requires now.Valid() && source.Valid()
  {
    forall u, v :: now.Inside(u, v) ==> now.At(u, v) == source.At(sourceX + u, sourceY + v)
  }

  /** A span clipped against the source, placed where the copy puts it. */
  function Placed(s: Span): Span { Span(s.local, s.local, s.count) }

  /** What is outside the source comes out transparent, as cleared. */
  lemma CopiedRegion(p: Placement, source: Image, before: Image, column: Option<Span>, row: Option<Span>)
    requires source.Valid() && before.Valid() && ClipArguments(p, source, before) && Blank(before)
    requires !p.blends && p.x == 0 && p.y == 0 && p.width == p.sourceWidth == before.width
    requires p.height == p.sourceHeight == before.height
    requires column == ClipAxisSpan(p.sourceX, p.width, source.width)
    requires row == ClipAxisSpan(p.sourceY, p.height, source.height)
    ensures column.None? || row.None? ==> LeavesAll(p, source, before)
    ensures column.Some? && row.Some? ==> SpansFit(p, before, Placed(column.value), Placed(row.value))
    ensures column.Some? && row.Some? ==>
      LeavesOutsideSpans(p, source, before, Placed(column.value), Placed(row.value))
  {
    forall u, v | before.Inside(u, v) && (column.None? || row.None?
        || !(0 <= u - column.value.local < column.value.count) || !(0 <= v - row.value.local < row.value.count))
      ensures p.Leaves(source, before, u, v)
    {
      assert !Lands(p.sourceX, u, source.width) || !Lands(p.sourceY, v, source.height);
      UnscaledSource(p, source, u, v);
    }
    hide ClipAxisSpan;
    hide Placement.Leaves;
  }

  /** infiltratr_surface_copy_region: the destination becomes exactly the asked-for window onto the
      source, transparent where the window leaves it, also when a surface is copied onto itself. */
  method CopyRegion(destination: Surface, source: Surface, sourceX: I32, sourceY: I32, width: I32, height: I32)
    returns (ok: bool)
    requires destination.Valid() && source.Valid()
    requires destination != source ==> destination.pixels != source.pixels
    modifies destination, destination.pixels
    ensures ok <==> old(source.pixels).Length != 0 && width > 0 && height > 0
    ensures ok ==> destination.Valid() && destination.width == width && destination.height == height
    ensures ok ==> ShowsWindow(destination.Picture(), old(source.Picture()), sourceX, sourceY)
    ensures !ok ==> destination.Picture() == old(destination.Picture())
  {
    hide ShowsWindow;
    hide Filled;
    hide Pack;
    hide Unpack;
    if source.pixels.Length == 0 || width <= 0 || height <= 0 {
      return false;
    }
    ghost var picture := source.Picture();
    var input := SnapshotIfNeeded(destination, source);
    SmallArea(width, height);
    var resized := destination.Resize(width, height);
    assert resized;
    destination.Clear(TRANSPARENT);
    CopyWindow(destination, input, sourceX, sourceY, width, height);
    assert input.Picture() == picture;
    ok := true;
  }

  lemma SmallArea(width: nat, height: nat)
    requires 0 < width <= 0x7FFF_FFFF && 0 < height <= 0x7FFF_FFFF
    ensures 0 < width * height <= SIZE_MAX / 4
  {
    MulMonotone2(1, width, 1, height);
    MulMonotone2(width, 0x7FFF_FFFF, height, 0x7FFF_FFFF);
  }

  /** The copying rows of a cleared destination. */
  method CopyWindow(destination: Surface, input: Surface, sourceX: I32, sourceY: I32, width: I32, height: I32)
    requires destination.Valid() && input.Valid() && destination.pixels != input.pixels
    requires width > 0 && height > 0 && destination.width == width && destination.height == height
    requires Filled(destination.Picture(), Pack(TRANSPARENT))
    modifies destination.pixels
    ensures destination.Valid() && input.Picture() == old(input.Picture())
    ensures ShowsWindow(destination.Picture(), input.Picture(), sourceX, sourceY)
  {
    hide ShowsWindow;
    hide Filled;
    hide Pack;
    hide Unpack;
    hide Blank;
    hide ClipAxisSpan;
    ghost var before, picture := destination.Picture(), input.Picture();
    ghost var p := Placement(sourceX, sourceY, width, height, 0, 0, width, height, false);
    ClearedIsBlank(before);
    var column := ClipAxisSpan(sourceX, width, input.width);
    var row := ClipAxisSpan(sourceY, height, input.height);
    CopiedRegion(p, picture, before, column, row);
    hide LeavesAll;
    hide LeavesOutsideSpans;
    hide Drawn;
    hide DrawnUpTo;
    hide Blank;
    if column.Some? && row.Some? {
      ghost var columns, rows := Placed(column.value), Placed(row.value);
      SkipToSpans(before, picture, p, columns, rows);
      var y := 0;
      while y < row.value.count
        invariant y <= row.value.count
        invariant destination.Valid() && input.Picture() == picture
        invariant DrawnUpTo(destination.Picture(), before, picture, p, 0, row.value.local + y)
      {
        RowOfSpans(p, picture, before, columns, rows, row.value.local + y);
        CopyRow(destination, input, p, before, Placed(column.value), Placed(row.value),
                column.value.start, row.value.start + y, row.value.local + y);
        y := y + 1;
      }
      SkipBelowSpans(destination.Picture(), before, picture, p, columns, rows);
    } else {
      NothingToDraw(before, picture, p);
    }
    WindowShown(destination.Picture(), before, picture, p);
  }

  lemma WindowShown(now: Image, before: Image, source: Image, p: Placement)
    requires before.Valid() && source.Valid() && Drawn(now, before, source, p)
    requires !p.blends && p.x == 0 && p.y == 0 && p.width == p.sourceWidth == before.width
    requires p.height == p.sourceHeight == before.height
    ensures ShowsWindow(now, source, p.sourceX, p.sourceY)
  {
    forall u, v | now.Inside(u, v)
      ensures now.At(u, v) == source.At(p.sourceX + u, p.sourceY + v)
    {
      UnscaledSource(p, source, u, v);
    }
    hide Image.At;
  }
}
