/** Packed colours and source-over compositing of straight-alpha channels. */
module Colours {
  import opened Powers

  type Channel = n: nat | n < 256
  type Pixel = n: nat | n < 0x1_0000_0000

  datatype Colour = Colour(r: Channel, g: Channel, b: Channel, a: Channel)

  const TRANSPARENT: Colour := Colour(0, 0, 0, 0)

  function Pack(c: Colour): Pixel { c.a * 0x100_0000 + c.r * 0x1_0000 + c.g * 0x100 + c.b }

  function Unpack(p: Pixel): Colour {
    Colour(p / 0x1_0000 % 0x100, p / 0x100 % 0x100, p % 0x100, p / 0x100_0000)
  }

  lemma UnpackPack(c: Colour)
    ensures Unpack(Pack(c)) == c
  {
    var p: nat := Pack(c);
    DivModUnique(p, 0x100_0000, c.a, c.r * 0x1_0000 + c.g * 0x100 + c.b);
    DivModUnique(p, 0x1_0000, c.a * 0x100 + c.r, c.g * 0x100 + c.b);
    DivModUnique(p, 0x100, c.a * 0x1_0000 + c.r * 0x100 + c.g, c.b);
  }

  lemma PackUnpack(p: Pixel)
    ensures Pack(Unpack(p)) == p
  {
    var x, y, z := p / 0x100, p / 0x1_0000, p / 0x100_0000;
    DivModUnique(p, 0x1_0000, x / 0x100, x % 0x100 * 0x100 + p % 0x100);
    DivModUnique(p, 0x100_0000, y / 0x100, y % 0x100 * 0x1_0000 + p % 0x1_0000);
  }

  /** A channel of the mix, rounded to nearest, a tie upwards. */
  function Mixed(s: Channel, sourceWeight: nat, d: Channel, destinationWeight: nat): (c: Channel)
    requires sourceWeight + destinationWeight > 0
    ensures (s <= c <= d) || (d <= c <= s)
    ensures var w := sourceWeight + destinationWeight;
      -w < 2 * (c * w - (s * sourceWeight + d * destinationWeight)) <= w
  {
    var w := sourceWeight + destinationWeight;
    var n: int := s * sourceWeight + d * destinationWeight;
    MeanBetween(s, sourceWeight, d, destinationWeight);
    RoundedQuotientBounds(n, w, if s <= d then s else d, if s <= d then d else s);
    (n + w / 2) / w
  }

  lemma MeanBetween(s: nat, ws: nat, d: nat, wd: nat)
    ensures var lo, hi := if s <= d then s else d, if s <= d then d else s;
      lo * (ws + wd) <= s * ws + d * wd <= hi * (ws + wd)
  {
    var lo, hi := if s <= d then s else d, if s <= d then d else s;
    MulMonotone(lo, s, ws);
    MulMonotone(lo, d, wd);
    MulMonotone(s, hi, ws);
    MulMonotone(d, hi, wd);
  }

  lemma RoundedQuotientBounds(n: int, w: int, lo: int, hi: int)
    requires w > 0 && lo * w <= n <= hi * w
    ensures var q: int := (n + w / 2) / w; lo <= q <= hi && -w < 2 * (q * w - n) <= w
  {
    var m := n + w / 2;
    var q := m / w;
    assert m == q * w + m % w;
    if q < lo { MulMonotone(q + 1, lo, w); Distribute(q, 1, w); }
    if q > hi { MulMonotone(hi + 1, q, w); Distribute(hi, 1, w); }
  }

  /** How much of the destination shows through. */
  function DestinationWeight(sourceAlpha: Channel, destinationAlpha: Channel): nat {
    MulMonotone2(0, destinationAlpha, 0, 255 - sourceAlpha);
    destinationAlpha * (255 - sourceAlpha)
  }

  /** composite_source_over. */
  function Composite(source: Colour, destination: Colour): (c: Colour) {
    var ws, wd := source.a * 255, DestinationWeight(source.a, destination.a);
    var alphaScaled := ws + wd;
    WeightBounds(source.a, destination.a);
    if alphaScaled == 0 then TRANSPARENT
    else
      Colour(Mixed(source.r, ws, destination.r, wd), Mixed(source.g, ws, destination.g, wd),
             Mixed(source.b, ws, destination.b, wd), (alphaScaled + 127) / 255)
  }

  lemma WeightBounds(sourceAlpha: Channel, destinationAlpha: Channel)
    ensures var w := sourceAlpha * 255 + DestinationWeight(sourceAlpha, destinationAlpha);
      destinationAlpha * 255 <= w <= 255 * 255 && (w == 0 <==> sourceAlpha == 0 && destinationAlpha == 0)
  {
    MulMonotone2(0, destinationAlpha, 0, 255 - sourceAlpha);
    MulMonotone(destinationAlpha, 255, 255 - sourceAlpha);
    MulMonotone(destinationAlpha, 255, sourceAlpha);
  }

  predicate Between(x: int, a: int, b: int) { a <= x <= b || b <= x <= a }

  /** A composited colour stays between its inputs, and is at least as opaque as either. */
  lemma CompositeBetween(s: Colour, d: Colour)
    ensures var c := Composite(s, d);
      && s.a <= c.a && d.a <= c.a
      && (c.a > 0 ==> Between(c.r, s.r, d.r) && Between(c.g, s.g, d.g) && Between(c.b, s.b, d.b))
  {
    WeightBounds(s.a, d.a);
  }

  /** The resulting alpha is the exact one, in units of 1/255, to the nearest unit. */
  lemma CompositeAlphaNearest(s: Colour, d: Colour)
    ensures var exact, a := s.a * 255 + DestinationWeight(s.a, d.a), Composite(s, d).a;
      -127 <= 255 * a - exact <= 127
  {
    WeightBounds(s.a, d.a);
  }

  /** c is the exact mean of a source and a destination channel, rounded: the source weighted by its alpha,
      the destination by its own alpha behind the source's. */
  predicate NearestMean(c: int, s: int, d: int, sourceAlpha: int, destinationAlpha: int) {
    var ws, wd := sourceAlpha * 255, destinationAlpha * (255 - sourceAlpha);
    -(ws + wd) < 2 * (c * (ws + wd) - (s * ws + d * wd)) <= ws + wd
  }

  /** Every channel of a visible result is that mean to the nearest unit, a tie going up, and its alpha is
      the exact one to the nearest unit; that leaves one colour only. */
  lemma CompositeIsMean(s: Colour, d: Colour)
    requires s.a > 0 || d.a > 0
    ensures var c := Composite(s, d);
      && NearestMean(c.r, s.r, d.r, s.a, d.a) && NearestMean(c.g, s.g, d.g, s.a, d.a)
      && NearestMean(c.b, s.b, d.b, s.a, d.a)
      && -127 <= 255 * c.a - (s.a * 255 + d.a * (255 - s.a)) <= 127
  {
    WeightBounds(s.a, d.a);
    MixedIsMean(s.r, d.r, s.a, d.a);
    MixedIsMean(s.g, d.g, s.a, d.a);
    MixedIsMean(s.b, d.b, s.a, d.a);
    hide Mixed;
    hide NearestMean;
  }

  lemma MixedIsMean(s: Channel, d: Channel, sourceAlpha: Channel, destinationAlpha: Channel)
    requires sourceAlpha > 0 || destinationAlpha > 0
    ensures sourceAlpha * 255 + DestinationWeight(sourceAlpha, destinationAlpha) > 0
    ensures NearestMean(Mixed(s, sourceAlpha * 255, d, DestinationWeight(sourceAlpha, destinationAlpha)), s, d,
                        sourceAlpha, destinationAlpha)
  {
    WeightBounds(sourceAlpha, destinationAlpha);
    assert DestinationWeight(sourceAlpha, destinationAlpha) == destinationAlpha * (255 - sourceAlpha);
    hide DestinationWeight;
  }

  lemma OneMean(c: int, e: int, s: int, d: int, sourceAlpha: Channel, destinationAlpha: Channel)
    requires sourceAlpha > 0 || destinationAlpha > 0
    requires NearestMean(c, s, d, sourceAlpha, destinationAlpha) && NearestMean(e, s, d, sourceAlpha, destinationAlpha)
    ensures c == e
  {
    var ws, wd := sourceAlpha * 255, destinationAlpha * (255 - sourceAlpha);
    MulMonotone2(0, destinationAlpha, 0, 255 - sourceAlpha);
    SeparateMultiples(c, e, ws + wd, s * ws + d * wd);
  }

  lemma SeparateMultiples(c: int, e: int, w: int, n: int)
    requires -w < 2 * (c * w - n) <= w && -w < 2 * (e * w - n) <= w
    ensures c == e
  {
    if c < e {
      MulMonotone(c + 1, e, w);
      Distribute(c, 1, w);
    } else if e < c {
      MulMonotone(e + 1, c, w);
      Distribute(e, 1, w);
    }
  }

  /** Any colour whose channels and alpha are that near is the composited one. */
  lemma CompositeUnique(s: Colour, d: Colour, c: Colour)
    requires s.a > 0 || d.a > 0
    requires NearestMean(c.r, s.r, d.r, s.a, d.a) && NearestMean(c.g, s.g, d.g, s.a, d.a)
    requires NearestMean(c.b, s.b, d.b, s.a, d.a)
    requires -127 <= 255 * c.a - (s.a * 255 + d.a * (255 - s.a)) <= 127
    ensures c == Composite(s, d)
  {
    CompositeIsMean(s, d);
    var e := Composite(s, d);
    hide Composite;
    OneMean(c.r, e.r, s.r, d.r, s.a, d.a);
    OneMean(c.g, e.g, s.g, d.g, s.a, d.a);
    OneMean(c.b, e.b, s.b, d.b, s.a, d.a);
    hide NearestMean;
    hide Mixed;
  }

  /** Nothing of an invisible destination shows through. */
  lemma OverNothingIsSource(s: Colour, d: Colour)
    requires s.a > 0 && d.a == 0
    ensures Composite(s, d) == s
  {
    MixedWithNothing(s.r, s.a * 255, d.r);
    MixedWithNothing(s.g, s.a * 255, d.g);
    MixedWithNothing(s.b, s.a * 255, d.b);
    assert DestinationWeight(s.a, d.a) == 0;
    hide Mixed;
    hide DestinationWeight;
  }

  /** The stored byte order: blue, green, red and alpha, from the least significant byte up. */
  lemma ChannelBytes(c: Colour)
    ensures Pack(c) % 256 == c.b && Pack(c) / 256 % 256 == c.g
    ensures Pack(c) / 65536 % 256 == c.r && Pack(c) / 16777216 == c.a
  {
    UnpackPack(c);
  }

  /** The opaque shortcut gives what the general formula would. */
  lemma OpaqueIsSource(s: Colour, d: Colour)
    requires s.a == 255
    ensures Composite(s, d) == s
  {
    MixedWithNothing(s.r, 255 * 255, d.r);
    MixedWithNothing(s.g, 255 * 255, d.g);
    MixedWithNothing(s.b, 255 * 255, d.b);
    hide Mixed;
  }

  lemma MixedWithNothing(s: Channel, w: nat, d: Channel)
    requires w > 0
    ensures Mixed(s, w, d, 0) == s && Mixed(d, 0, s, w) == s
  {
    assert d * 0 == 0;
    DivModUnique(s * w + w / 2, w, s, w / 2);
  }

  /** The transparent shortcut does too, exactly when the destination is visible or wholly zero. */
  lemma TransparentKeepsDestination(s: Colour, d: Colour)
    requires s.a == 0
    ensures Composite(s, d) == d <==> d.a > 0 || d == TRANSPARENT
  {
    if d.a > 0 {
      MixedWithNothing(d.r, d.a * 255, s.r);
      MixedWithNothing(d.g, d.a * 255, s.g);
      MixedWithNothing(d.b, d.a * 255, s.b);
    }
    hide Mixed;
  }

  /** What blending a colour onto a pixel leaves there. */
  function Over(source: Colour, existing: Colour): Colour {
    if source.a == 0 then existing else Composite(source, existing)
  }

  /** Blending leaves a pixel alone under an invisible source, and otherwise gives the mean. */
  lemma OverIsMean(s: Colour, d: Colour)
    ensures s.a == 0 ==> Over(s, d) == d
    ensures s.a > 0 ==>
      var c := Over(s, d);
      && NearestMean(c.r, s.r, d.r, s.a, d.a) && NearestMean(c.g, s.g, d.g, s.a, d.a)
      && NearestMean(c.b, s.b, d.b, s.a, d.a)
      && -127 <= 255 * c.a - (s.a * 255 + d.a * (255 - s.a)) <= 127
  {
    if s.a > 0 {
      CompositeIsMean(s, d);
    }
    hide Composite;
    hide NearestMean;
  }
}
