/** Pictures as values: what each pixel shows, and what drawing one onto another should show. */
module Images {
  import opened Powers
  import opened Colours

  datatype Image = Image(width: nat, height: nat, pixels: seq<Pixel>) {

    ghost predicate Valid() { |pixels| == width * height }

    predicate Inside(x: int, y: int) { 0 <= x < width && 0 <= y < height }

    /** The colour at a signed position; outside the picture everything is transparent. */
    function At(x: int, y: int): Colour
      requires Valid()
    {
      if Inside(x, y) then IndexInside(x, y, width, height); Unpack(pixels[y * width + x]) else TRANSPARENT
    }

    function Put(x: int, y: int, c: Colour): (i: Image)
      requires Valid() && Inside(x, y)
      ensures i.Valid()
    {
      IndexInside(x, y, width, height);
      this.(pixels := pixels[y * width + x := Pack(c)])
    }
  }

  lemma IndexInside(x: int, y: int, width: int, height: int)
    requires 0 <= x < width && 0 <= y < height
    ensures 0 <= y * width + x < height * width
    ensures height * width == width * height
  {
    MulMonotone2(0, y, 0, width);
    MulMonotone(y + 1, height, width);
    Distribute(y, 1, width);
  }

  lemma IndexInjective(x: int, y: int, u: int, v: int, width: int)
    requires 0 <= x < width && 0 <= u < width
    requires y * width + x == v * width + u
    ensures x == u && y == v
  {
    DivModUnique(y * width + x, width, y, x);
    DivModUnique(v * width + u, width, v, u);
  }

  /** Writing one pixel changes that pixel and no other. */
  lemma AtPut(i: Image, x: int, y: int, c: Colour, u: int, v: int)
    requires i.Valid() && i.Inside(x, y)
    ensures i.Put(x, y, c).At(u, v) == if (u, v) == (x, y) then c else i.At(u, v)
  {
    UnpackPack(c);
    hide Pack;
    hide Unpack;
    IndexInside(x, y, i.width, i.height);
    if i.Inside(u, v) {
      IndexInside(u, v, i.width, i.height);
      if y * i.width + x == v * i.width + u {
        IndexInjective(x, y, u, v, i.width);
      }
    }
  }

  /** Rewriting what is already there changes nothing. */
  lemma PutSame(i: Image, x: int, y: int)
    requires i.Valid() && i.Inside(x, y)
    ensures i.Put(x, y, i.At(x, y)) == i
  {
    hide Pack;
    hide Unpack;
    IndexInside(x, y, i.width, i.height);
    RewriteSame(i.pixels, y * i.width + x);
  }

  lemma RewriteSame(pixels: seq<Pixel>, k: nat)
    requires k < |pixels|
    ensures pixels[k := Pack(Unpack(pixels[k]))] == pixels
  {
    PackUnpack(pixels[k]);
    hide Pack;
    hide Unpack;
  }

  /** Where a rectangle of the source lands on the destination, in signed coordinates, and whether it
      is blended over what is there or replaces it. */
  datatype Placement = Placement(sourceX: int, sourceY: int, sourceWidth: nat, sourceHeight: nat,
                                 x: int, y: int, width: nat, height: nat, blends: bool)
  {
    /** The source colour under a destination pixel: nearest neighbour towards the origin. */
    function Source(source: Image, u: int, v: int): Colour
      requires source.Valid()
    {
      if 0 <= u - x < width && 0 <= v - y < height && sourceWidth > 0 && sourceHeight > 0 then
        source.At(sourceX + (u - x) * sourceWidth / width, sourceY + (v - y) * sourceHeight / height)
      else TRANSPARENT
    }

    /** What the destination pixel should show afterwards. */
    function Wanted(source: Image, destination: Image, u: int, v: int): Colour
      requires source.Valid() && destination.Valid()
    {
      if blends then Over(Source(source, u, v), destination.At(u, v)) else Source(source, u, v)
    }

    ghost predicate Leaves(source: Image, destination: Image, u: int, v: int)
      requires source.Valid() && destination.Valid()
    {
      Wanted(source, destination, u, v) == destination.At(u, v)
    }
  }

  /** The picture `before` with the placed source drawn onto it. */
  ghost predicate Drawn(now: Image, before: Image, source: Image, p: Placement)
    requires before.Valid() && source.Valid()
  {
    && now.Valid() && now.width == before.width && now.height == before.height
    && forall u, v :: now.Inside(u, v) ==> now.At(u, v) == p.Wanted(source, before, u, v)
  }

  /** Pixels before (u, v) in reading order. */
  predicate Earlier(i: int, j: int, u: int, v: int) { j < v || (j == v && i < u) }

  /** Drawing done for the pixels before (u, v). */
  ghost predicate DrawnUpTo(now: Image, before: Image, source: Image, p: Placement, u: int, v: int)
    requires before.Valid() && source.Valid()
  {
    && now.Valid() && now.width == before.width && now.height == before.height
    && forall i, j :: now.Inside(i, j) ==>
         now.At(i, j) == if Earlier(i, j, u, v) then p.Wanted(source, before, i, j) else before.At(i, j)
  }

  lemma StartDrawing(before: Image, source: Image, p: Placement)
    requires before.Valid() && source.Valid()
    ensures DrawnUpTo(before, before, source, p, 0, 0)
  {
  }

  /** Pixels the drawing leaves alone may be skipped. */
  lemma SkipTo(now: Image, before: Image, source: Image, p: Placement, u: int, v: int, nextU: int, nextV: int)
    requires before.Valid() && source.Valid() && DrawnUpTo(now, before, source, p, u, v)
    requires v < nextV || (v == nextV && u <= nextU)
    requires forall i, j :: before.Inside(i, j) && Earlier(i, j, nextU, nextV) && !Earlier(i, j, u, v) ==>
                              p.Leaves(source, before, i, j)
    ensures DrawnUpTo(now, before, source, p, nextU, nextV)
  {
    forall i, j | now.Inside(i, j) && Earlier(i, j, nextU, nextV) && !Earlier(i, j, u, v)
      ensures p.Wanted(source, before, i, j) == before.At(i, j)
    {
      assert p.Leaves(source, before, i, j);
    }
    hide Image.At;
    hide Placement.Wanted;
    hide Image.Valid;
  }

  lemma DrawOne(now: Image, before: Image, source: Image, p: Placement, u: int, v: int)
    requires before.Valid() && source.Valid() && DrawnUpTo(now, before, source, p, u, v) && now.Inside(u, v)
    ensures DrawnUpTo(now.Put(u, v, p.Wanted(source, before, u, v)), before, source, p, u + 1, v)
    ensures now.At(u, v) == before.At(u, v)
  {
    var c := p.Wanted(source, before, u, v);
    forall i, j | now.Inside(i, j)
      ensures now.Put(u, v, c).At(i, j) == if (i, j) == (u, v) then c else now.At(i, j)
    {
      AtPut(now, u, v, c, i, j);
    }
    hide Image.At;
    hide Placement.Wanted;
    hide Image.Valid;
  }

  lemma FinishDrawing(now: Image, before: Image, source: Image, p: Placement)
    requires before.Valid() && source.Valid() && DrawnUpTo(now, before, source, p, 0, before.height)
    ensures Drawn(now, before, source, p)
  {
  }

  /** Without scaling the source position moves in step with the destination's. */
  lemma UnscaledSource(p: Placement, source: Image, u: int, v: int)
    requires source.Valid() && p.width == p.sourceWidth && p.height == p.sourceHeight
    ensures p.Source(source, u, v) ==
      if 0 <= u - p.x < p.width && 0 <= v - p.y < p.height
      then source.At(p.sourceX + (u - p.x), p.sourceY + (v - p.y)) else TRANSPARENT
  {
    if 0 <= u - p.x < p.width && 0 <= v - p.y < p.height {
      DivModUnique((u - p.x) * p.width, p.width, u - p.x, 0);
      DivModUnique((v - p.y) * p.height, p.height, v - p.y, 0);
    }
  }

  /** The colours shown determine the stored pixels. */
  lemma SameColoursSamePixels(a: Image, b: Image)
    requires a.Valid() && b.Valid() && a.width == b.width && a.height == b.height
    requires forall u, v :: a.Inside(u, v) ==> a.At(u, v) == b.At(u, v)
    ensures a == b
  {
    forall k | 0 <= k < |a.pixels|
      ensures a.pixels[k] == b.pixels[k]
    {
      SamePixel(a, b, k);
    }
    hide Image.At;
  }

  lemma SamePixel(a: Image, b: Image, k: nat)
    requires a.Valid() && b.Valid() && a.width == b.width && a.height == b.height && k < |a.pixels|
    requires forall u, v :: a.Inside(u, v) ==> a.At(u, v) == b.At(u, v)
    ensures a.pixels[k] == b.pixels[k]
  {
    var x, y := Position(k, a.width, a.height);
    assert a.Inside(x, y) && a.At(x, y) == b.At(x, y);
    PackUnpack(a.pixels[k]);
    PackUnpack(b.pixels[k]);
    hide Pack;
    hide Unpack;
  }

  lemma Position(k: nat, width: nat, height: nat) returns (x: nat, y: nat)
    requires k < width * height
    ensures x < width && y < height && k == y * width + x
  {
    x, y := k % width, k / width;
    if y >= height { MulMonotone(height, y, width); }
  }

  /** So a drawing has one outcome only. */
  lemma DrawnUnique(a: Image, b: Image, before: Image, source: Image, p: Placement)
    requires before.Valid() && source.Valid() && Drawn(a, before, source, p) && Drawn(b, before, source, p)
    ensures a == b
  {
    hide Placement.Wanted;
    forall u, v | a.Inside(u, v)
      ensures a.At(u, v) == b.At(u, v)
    {
      assert b.Inside(u, v);
    }
    hide Image.At;
    SameColoursSamePixels(a, b);
  }
}
