/** Signed decimal exponents kept as a sign and a size_t magnitude, so that counters of any
    representable size can be combined without signed overflow. */
module DecimalExponents {
  import opened Wrappers

  const SIZE_MAX: nat := 0xFFFF_FFFF_FFFF_FFFF

  type Size = n: nat | n <= 0xFFFF_FFFF_FFFF_FFFF

  function SignedSize(negative: bool, magnitude: int): int {
    if negative then -magnitude else magnitude
  }

  datatype DecimalExponent = DecimalExponent(negative: bool, magnitude: Size) {
    function Value(): int { SignedSize(negative, magnitude) }

    /** Zero is never negative. */
    predicate Canonical() { negative ==> magnitude > 0 }
  }

  predicate InRange(v: int) { SignedSize(true, SIZE_MAX) <= v <= SIZE_MAX }

  /** (explicit exponent) - (fractional digits) + (digits dropped or stripped).  Absent exactly
      when the sum is out of range, although no intermediate may leave the range of a size_t. */
  function Combine(explicitNegative: bool, explicitMagnitude: Size, fractionalDigits: Size, positiveAdjustment: Size)
    : (r: Option<DecimalExponent>)
    ensures var v := SignedSize(explicitNegative, explicitMagnitude) - fractionalDigits + positiveAdjustment;
      (r.Some? <==> InRange(v)) && (r.Some? ==> r.value.Canonical() && r.value.Value() == v)
  {
    if !explicitNegative then
      if explicitMagnitude >= fractionalDigits then
        var base := explicitMagnitude - fractionalDigits;
        if positiveAdjustment > SIZE_MAX - base then None
        else Some(DecimalExponent(false, base + positiveAdjustment))
      else
        var negative := fractionalDigits - explicitMagnitude;
        if positiveAdjustment >= negative then Some(DecimalExponent(false, positiveAdjustment - negative))
        else Some(DecimalExponent(true, negative - positiveAdjustment))
    else if positiveAdjustment >= explicitMagnitude then
      var positive := positiveAdjustment - explicitMagnitude;
      if positive >= fractionalDigits then Some(DecimalExponent(false, positive - fractionalDigits))
      else Some(DecimalExponent(true, fractionalDigits - positive))
    else
      var negative := explicitMagnitude - positiveAdjustment;
      if fractionalDigits > SIZE_MAX - negative then None
      else Some(DecimalExponent(true, negative + fractionalDigits))
  }

  function AddPositive(e: DecimalExponent, addend: Size): (r: Option<DecimalExponent>)
    requires e.Canonical()
    ensures r.Some? <==> InRange(e.Value() + addend)
    ensures r.Some? ==> r.value.Canonical() && r.value.Value() == e.Value() + addend
  {
    if !e.negative then
      if addend > SIZE_MAX - e.magnitude then None
      else Some(DecimalExponent(false, e.magnitude + addend))
    else if addend >= e.magnitude then Some(DecimalExponent(false, addend - e.magnitude))
    else Some(DecimalExponent(true, e.magnitude - addend))
  }
}
