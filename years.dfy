/** The year sequences that the configuration loader derives from the `case`
    section: the simulation years and the supply-side years. */
module Years {

  /** The integer settings of the `case` section, already parsed with `int`. */
  datatype CaseYears = CaseYears(startYear: int, endYear: int, yearStep: int, currentYear: int)

  /** A product with a positive factor is positive only when the other
      factor is. */
  lemma PositiveFactor(d: int, b: int)
    requires b > 0 && d * b > 0
    ensures d > 0
  {
  }

  /** A product with a positive factor is non-negative only when the other
      factor is. */
  lemma NonNegativeFactor(d: int, b: int)
    requires b > 0 && d * b >= 0
    ensures d >= 0
  {
  }

  /** Division by a positive number has exactly one solution. */
  lemma DivUnique(a: int, b: int, q: int, r: int)
    requires b > 0 && 0 <= r < b && a == q * b + r
    ensures a / b == q && a % b == r
  {
    var q', r' := a / b, a % b;
    assert a == q' * b + r';
    assert (q + 1 - q') * b == q * b + b - q' * b;
    PositiveFactor(q + 1 - q', b);
    assert (q' + 1 - q) * b == q' * b + b - q * b;
    PositiveFactor(q' + 1 - q, b);
  }

  /** Python's `range(start, stop, step)` for a positive step: `start`,
      `start + step`, ... while below `stop`. */
  function Range(start: int, stop: int, step: int): (r: seq<int>)
    requires step >= 1
    ensures r == [] <==> start >= stop
    ensures forall i :: 0 <= i < |r| ==> r[i] == start + i * step
    ensures |r| > 0 ==> start + (|r| - 1) * step < stop <= start + |r| * step
    decreases stop - start
  {
    if start >= stop then []
    else
      var rest := Range(start + step, stop, step);
      assert forall i :: 1 <= i <= |rest| ==> (start + step) + (i - 1) * step == start + i * step by {
        forall i | 1 <= i <= |rest| ensures (start + step) + (i - 1) * step == start + i * step {
          assert (i - 1) * step == i * step - step;
        }
      }
      assert |rest| > 0 ==> (|rest| + 1 - 1) * step == (|rest| - 1) * step + step;
      assert (|rest| + 1) * step == |rest| * step + step;
      [start] + rest
  }

  /** The number of elements of a non-empty range, in closed form. */
  lemma RangeLength(start: int, stop: int, step: int)
    requires step >= 1
    ensures start < stop ==> |Range(start, stop, step)| == (stop - start - 1) / step + 1
  {
    if start >= stop { return; }
    var n := |Range(start, stop, step)|;
    var r := (stop - start - 1) - (n - 1) * step;
    assert n * step == (n - 1) * step + step;
    DivUnique(stop - start - 1, step, n - 1, r);
  }

  /** Dropping the first `k` elements of a range starts it `k` steps later. */
  lemma {:induction false} RangeSuffix(start: int, stop: int, step: int, k: nat)
    requires step >= 1 && k <= |Range(start, stop, step)|
    ensures Range(start + k * step, stop, step) == Range(start, stop, step)[k..]
    decreases k
  {
    if k > 0 {
      RangeSuffix(start + step, stop, step, k - 1);
      assert (start + step) + (k - 1) * step == start + k * step;
    }
  }

  /** The inclusive stepped year sequence `range(first, last + 1, step)`. */
  function YearSeq(first: int, last: int, step: int): (r: seq<int>)
    requires step >= 1
    ensures forall i :: 0 <= i < |r| ==> r[i] <= last
    ensures forall i :: 0 <= i < |r| - 1 ==> r[i + 1] == r[i] + step
    ensures first <= last ==> |r| == (last - first) / step + 1 && r[0] == first
    ensures first > last ==> r == []
  {
    RangeLength(first, last + 1, step);
    RangeBelowStop(first, last + 1, step);
    RangeRises(first, last + 1, step);
    Range(first, last + 1, step)
  }

  /** Every element of a range lies below its stop. */
  lemma RangeBelowStop(start: int, stop: int, step: int)
    requires step >= 1
    ensures forall i :: 0 <= i < |Range(start, stop, step)| ==> Range(start, stop, step)[i] < stop
  {
    var r := Range(start, stop, step);
    forall i | 0 <= i < |r| ensures r[i] < stop {
      MulMonotone(i, |r| - 1, step);
    }
  }

  /** Neighbouring elements of a range are one step apart. */
  lemma RangeRises(start: int, stop: int, step: int)
    requires step >= 1
    ensures var r := Range(start, stop, step);
            forall i :: 0 <= i < |r| - 1 ==> r[i + 1] == r[i] + step
  {
    var r := Range(start, stop, step);
    forall i | 0 <= i < |r| - 1 ensures r[i + 1] == r[i] + step {
      assert (i + 1) * step == i * step + step;
    }
  }

  /** Every element of a range is a whole number of steps from its start. */
  lemma RangeMemberOnGrid(start: int, stop: int, step: int, y: int)
    requires step >= 1 && y in Range(start, stop, step)
    ensures start <= y < stop && (y - start) % step == 0
  {
    var r := Range(start, stop, step);
    var i :| 0 <= i < |r| && r[i] == y;
    var last := |r| - 1;
    assert y - start == i * step;
    assert r[last] == start + last * step;
    MulMonotone(i, last, step);
    DivUnique(y - start, step, i, 0);
  }

  /** Multiplying by a positive number keeps the order of non-negative
      numbers. */
  lemma MulMonotone(i: int, j: int, b: int)
    requires 0 <= i <= j && b >= 1
    ensures 0 <= i * b <= j * b
  {
    assert j * b - i * b == (j - i) * b;
  }

  /** Every value below the stop that is a whole number of steps from the
      start is an element of the range. */
  lemma RangeGridMember(start: int, stop: int, step: int, y: int)
    requires step >= 1 && start <= y < stop && (y - start) % step == 0
    ensures y in Range(start, stop, step)
  {
    var full := Range(start, stop, step);
    var k := (y - start) / step;
    assert y - start == k * step;
    NonNegativeFactor(k, step);
    assert (|full| - k) * step == |full| * step - k * step;
    PositiveFactor(|full| - k, step);
    assert full[k] == y;
  }

  /** A year is in the sequence exactly when it lies between the bounds and
      is a whole number of steps from the first year. */
  lemma YearSeqMembers(first: int, last: int, step: int, y: int)
    requires step >= 1
    ensures y in YearSeq(first, last, step) <==> first <= y <= last && (y - first) % step == 0
  {
    if y in YearSeq(first, last, step) {
      RangeMemberOnGrid(first, last + 1, step, y);
    }
    if first <= y <= last && (y - first) % step == 0 {
      RangeGridMember(first, last + 1, step, y);
    }
  }

  /** `years`: from `start_year` to `end_year` in steps of `year_step`. */
  function SimulationYears(c: CaseYears): (r: seq<int>)
    requires c.yearStep >= 1
    ensures forall y :: y in r <==> c.startYear <= y <= c.endYear && (y - c.startYear) % c.yearStep == 0
    ensures forall i, j :: 0 <= i < j < |r| ==> r[i] < r[j]
  {
    var r := YearSeq(c.startYear, c.endYear, c.yearStep);
    assert forall y :: y in r <==> c.startYear <= y <= c.endYear && (y - c.startYear) % c.yearStep == 0 by {
      forall y ensures y in r <==> c.startYear <= y <= c.endYear && (y - c.startYear) % c.yearStep == 0 {
        YearSeqMembers(c.startYear, c.endYear, c.yearStep, y);
      }
    }
    AscendingByStep(r, c.yearStep);
    r
  }

  /** `supply_years`: from `current_year` to `end_year` in steps of `year_step`. */
  function SupplyYears(c: CaseYears): (r: seq<int>)
    requires c.yearStep >= 1
    ensures forall y :: y in r <==> c.currentYear <= y <= c.endYear && (y - c.currentYear) % c.yearStep == 0
    ensures forall i, j :: 0 <= i < j < |r| ==> r[i] < r[j]
  {
    var r := YearSeq(c.currentYear, c.endYear, c.yearStep);
    assert forall y :: y in r <==> c.currentYear <= y <= c.endYear && (y - c.currentYear) % c.yearStep == 0 by {
      forall y ensures y in r <==> c.currentYear <= y <= c.endYear && (y - c.currentYear) % c.yearStep == 0 {
        YearSeqMembers(c.currentYear, c.endYear, c.yearStep, y);
      }
    }
    AscendingByStep(r, c.yearStep);
    r
  }

  /** A sequence that rises by a positive step between neighbours is strictly
      increasing. */
  lemma {:induction false} AscendingByStep(r: seq<int>, step: int)
    requires step >= 1
    requires forall i :: 0 <= i < |r| - 1 ==> r[i + 1] == r[i] + step
    ensures forall i, j :: 0 <= i < j < |r| ==> r[i] < r[j]
    decreases |r|
  {
    if |r| >= 2 {
      var t := r[1..];
      assert forall i :: 0 <= i < |t| - 1 ==> t[i + 1] == t[i] + step by {
        forall i | 0 <= i < |t| - 1 ensures t[i + 1] == t[i] + step {
          assert t[i] == r[i + 1] && t[i + 1] == r[i + 2];
        }
      }
      AscendingByStep(t, step);
      forall i, j | 0 <= i < j < |r| ensures r[i] < r[j] {
        if i == 0 {
          if j > 1 { assert t[0] < t[j - 1]; }
        } else {
          assert t[i - 1] < t[j - 1];
        }
      }
    }
  }

  /** When the current year is on the simulation grid, the supply years are
      the tail of the simulation years that starts at the current year. */
  lemma SupplyYearsAreTail(c: CaseYears)
    requires c.yearStep >= 1
    requires c.startYear <= c.currentYear <= c.endYear
    requires (c.currentYear - c.startYear) % c.yearStep == 0
    ensures var k := (c.currentYear - c.startYear) / c.yearStep;
            && k <= |SimulationYears(c)|
            && SupplyYears(c) == SimulationYears(c)[k..]
  {
    var k := (c.currentYear - c.startYear) / c.yearStep;
    var full := Range(c.startYear, c.endYear + 1, c.yearStep);
    assert c.currentYear - c.startYear == k * c.yearStep;
    NonNegativeFactor(k, c.yearStep);
    assert (|full| - k) * c.yearStep == |full| * c.yearStep - k * c.yearStep;
    PositiveFactor(|full| - k, c.yearStep);
    RangeSuffix(c.startYear, c.endYear + 1, c.yearStep, k);
  }

  /** Two small examples: 2020 to 2025 in steps of one, and supply years
      from 2022. */
  lemma Examples()
    ensures SimulationYears(CaseYears(2020, 2025, 1, 2022)) == [2020, 2021, 2022, 2023, 2024, 2025]
    ensures SupplyYears(CaseYears(2020, 2025, 1, 2022)) == [2022, 2023, 2024, 2025]
  {
    var c := CaseYears(2020, 2025, 1, 2022);
    var r := SimulationYears(c);
    assert |r| == 6;
    var s := SupplyYears(c);
    assert |s| == 4;
  }
}
