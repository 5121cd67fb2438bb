/** Cycle partitions, period boundaries and periodic deadlines. */
module Timing {
  import opened Wrappers
  import opened Powers
  import opened MachineIntegers
  import opened WideDivision

  /** Which of `count` equal parts of the cycle a position lies in. */
  function PartitionIndex(position: nat, cycle: nat, count: nat): nat
    requires cycle > 0
  {
    MulMonotone2(0, position, 0, count);
    position * count / cycle
  }

  /** The least whole position that is not before the end of the phase's part. */
  ghost predicate NextBoundary(phase: nat, cycle: nat, count: nat, next: nat)
    requires cycle > 0
  {
    && phase < next <= cycle
    && next * count >= (PartitionIndex(phase, cycle, count) + 1) * cycle
    && forall p: nat :: phase <= p < next ==> PartitionIndex(p, cycle, count) == PartitionIndex(phase, cycle, count)
  }

  lemma CeilingBounds(rest: nat, count: nat)
    requires 0 < rest && 0 < count
    ensures var units := rest / count + (if rest % count != 0 then 1 else 0);
      0 < units && (units - 1) * count < rest <= units * count
  {
    var q := rest / count;
    assert rest == q * count + rest % count;
    Distribute(q, 1, count);
    Distribute(q, -1, count);
    if q == 0 {
      assert q * count == 0;
    }
  }

  /** The distance to the next partition boundary, rounded up to whole units. */
  lemma BoundaryDistance(phase: nat, cycle: nat, count: nat, units: nat)
    requires phase < cycle && 0 < count && 0 < units
    requires var rest := cycle - phase * count % cycle; (units - 1) * count < rest <= units * count
    ensures NextBoundary(phase, cycle, count, phase + units)
  {
    var product := phase * count;
    var index, scaled := product / cycle, product % cycle;
    assert product == index * cycle + scaled;
    Distribute(phase, units, count);
    Distribute(index, 1, cycle);
    forall p: nat | phase <= p < phase + units
      ensures PartitionIndex(p, cycle, count) == index
    {
      StaysInPart(phase, cycle, count, units, p);
    }
    BoundaryInCycle(phase, cycle, count, units);
  }

  lemma StaysInPart(phase: nat, cycle: nat, count: nat, units: nat, p: nat)
    requires phase < cycle && 0 < count && phase <= p < phase + units
    requires (units - 1) * count < cycle - phase * count % cycle
    ensures PartitionIndex(p, cycle, count) == PartitionIndex(phase, cycle, count)
  {
    var product := phase * count;
    var d := p - phase;
    Distribute(phase, d, count);
    MulMonotone(d, units - 1, count);
    MulMonotone2(0, d, 0, count);
    assert product == (product / cycle) * cycle + product % cycle;
    DivModUnique(p * count, cycle, product / cycle, product % cycle + d * count);
  }

  lemma BoundaryInCycle(phase: nat, cycle: nat, count: nat, units: nat)
    requires phase < cycle && 0 < count && 0 < units
    requires (units - 1) * count < cycle - phase * count % cycle
    ensures phase + units <= cycle
  {
    var product := phase * count;
    var index := product / cycle;
    assert product == index * cycle + product % cycle;
    IndexBelowCount(phase, cycle, count);
    MulMonotone(index + 1, count, cycle);
    Distribute(index, 1, cycle);
    Distribute(phase, units - 1, count);
    MulCancel(phase + units - 1, cycle, count);
  }

  lemma IndexBelowCount(phase: nat, cycle: nat, count: nat)
    requires phase < cycle && 0 < count
    ensures 0 <= phase * count / cycle < count
  {
    MulMonotone2(0, phase, 0, count);
    MulStrict(phase, cycle, count);
    var q := phase * count / cycle;
    MulCancel(q, count, cycle);
  }

  /** The reported part is the one the position lies in: part i of count ends where p * count reaches
      (i + 1) * cycle. */
  lemma LiesInPart(position: nat, cycle: nat, count: nat)
    requires cycle > 0
    ensures var i := PartitionIndex(position, cycle, count);
      i * cycle <= position * count < (i + 1) * cycle
  {
    var product := position * count;
    MulMonotone2(0, position, 0, count);
    Distribute(product / cycle, 1, cycle);
    assert product == (product / cycle) * cycle + product % cycle;
  }

  /** infiltratr_cycle_partition_u64: exact on the whole input domain. */
  method CyclePartition(position: U64, cycle: U64, count: U64, wantIndex: bool, wantUnits: bool)
    returns (ok: bool, index: U64, units: U64)
    ensures ok <==> cycle > 0 && count > 0 && (wantIndex || wantUnits)
    ensures ok ==> index == PartitionIndex(position % cycle, cycle, count) && index < count
    ensures ok ==> NextBoundary(position % cycle, cycle, count, position % cycle + units)
  {
    var phase: U64 := if cycle != 0 then position % cycle else 0;
    if cycle == 0 || count == 0 || (!wantIndex && !wantUnits) {
      return false, 0, 0;
    }
    IndexBelowCount(phase, cycle, count);
    var divided, partition, scaled := ProductDivMod(phase, count, cycle, true, true);
    assert divided;
    hide NextBoundary;
    var distance: U64 := cycle - scaled;
    SmallQuotient(distance, count);
    CeilingBounds(distance, count);
    var whole := distance / count;
    if distance % count != 0 {
      whole := whole + 1;
    }
    BoundaryDistance(phase, cycle, count, whole);
    return true, partition, whole;
  }

  /** Any earlier position falls short of the boundary, so the reported one is the least. */
  lemma NextBoundaryIsLeast(phase: nat, cycle: nat, count: nat, next: nat, p: nat)
    requires 0 < cycle && NextBoundary(phase, cycle, count, next) && phase <= p < next
    ensures p * count < (PartitionIndex(phase, cycle, count) + 1) * cycle
  {
    var a, q := p * count, PartitionIndex(p, cycle, count);
    hide NextBoundary;
    Distribute(q, 1, cycle);
    MulMonotone2(0, p, 0, count);
    assert a == (a / cycle) * cycle + a % cycle;
  }

  predicate AtPeriod(position: int, period: int)
    requires period > 0
  {
    position % period == 0
  }

  lemma NextMultiple(position: int, period: int, p: int)
    requires period > 0 && position < p <= position + period - position % period
    ensures AtPeriod(p, period) <==> p == position + period - position % period
  {
    var q, r := position / period, position % period;
    assert position == q * period + r;
    if p == position + period - r {
      Distribute(q, 1, period);
      DivModUnique(p, period, q + 1, 0);
    } else {
      DivModUnique(p, period, q, r + p - position);
    }
  }

  /** infiltratr_i64_period_remaining: the distance to the least multiple of period after position. */
  method PeriodRemaining(position: I64, period: I64) returns (ok: bool, remaining: U64)
    ensures ok <==> period > 0
    ensures ok ==> 0 < remaining <= period && AtPeriod(position + remaining, period)
    ensures ok ==> forall p :: position < p < position + remaining ==> !AtPeriod(p, period)
  {
    if period <= 0 {
      return false, 0;
    }
    var divided := I64FloorDivMod(position, period);
    var phase := divided.value.1;
    remaining := period - phase;
    hide AtPeriod;
    forall p | position < p <= position + remaining
      ensures AtPeriod(p, period) <==> p == position + remaining
    {
      NextMultiple(position, period, p);
    }
    return true, remaining;
  }

  /** The k-th occurrence of a periodic deadline, over unbounded integers. */
  function Occurrence(deadline: nat, interval: nat, k: nat): nat {
    MulMonotone2(0, k, 0, interval);
    deadline + k * interval
  }

  /** The occurrence a periodic deadline moves to: one interval on, or the first that is not missed. */
  function NextOccurrence(deadline: U64, now: U64, interval: U64): nat
    requires interval > 0
  {
    if deadline > now then Occurrence(deadline, interval, 1)
    else Occurrence(deadline, interval, (now - deadline) / interval + 1)
  }

  /** A late deadline moves to the least occurrence strictly after now. */
  lemma NextOccurrenceIsLeast(deadline: U64, now: U64, interval: U64)
    requires interval > 0 && deadline <= now
    ensures NextOccurrence(deadline, now, interval) > now
    ensures forall k: nat | Occurrence(deadline, interval, k) > now ::
              NextOccurrence(deadline, now, interval) <= Occurrence(deadline, interval, k)
  {
    var late := now - deadline;
    var q := late / interval;
    assert late == q * interval + late % interval;
    Distribute(q, 1, interval);
    forall k: nat | Occurrence(deadline, interval, k) > now
      ensures Occurrence(deadline, interval, q + 1) <= Occurrence(deadline, interval, k)
    {
      if k <= q {
        MulMonotone(k, q, interval);
      } else {
        MulMonotone(q + 1, k, interval);
      }
    }
  }

  /** A deadline that has not been reached moves on by exactly one interval. */
  lemma UnexpiredMovesOnce(deadline: U64, now: U64, interval: U64)
    requires interval > 0 && deadline > now
    ensures NextOccurrence(deadline, now, interval) == deadline + interval
  {
    assert Occurrence(deadline, interval, 1) == deadline + 1 * interval;
  }

  /** infiltratr_periodic_deadline_advance: the next occurrence, saturated. */
  method PeriodicDeadlineAdvance(deadline: U64, now: U64, interval: U64) returns (ok: bool, next: U64)
    ensures ok <==> interval > 0
    ensures ok ==> var occurrence := NextOccurrence(deadline, now, interval);
      next == if occurrence <= U64_MAX then occurrence else U64_MAX
  {
    if interval == 0 {
      return false, 0;
    }
    if deadline > now {
      return true, U64AddSaturating(deadline, interval);
    }
    SmallQuotient(now - deadline, interval);
    var steps := U64AddSaturating((now - deadline) / interval, 1);
    var advance := U64MultiplySaturating(interval, steps);
    if (now - deadline) / interval + 1 > U64_MAX {
      // Only an interval of one can be that late: saturated or not, the sum does not fit.
      MulMonotone((now - deadline) / interval, steps, interval);
      MulMonotone(1, interval, (now - deadline) / interval + 1);
      MulMonotone(1, interval, steps);
    }
    return true, U64AddSaturating(deadline, advance);
  }
}
