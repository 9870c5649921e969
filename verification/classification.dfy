/**
 Degree classification: the weighted average of the yearly average marks,
 mapped through four thresholds.

 Year `i` (counting from 0) weighs `2^i`, and the weighted sum is divided by
 `2^TotalYears - 1`, the sum of the weights. Every division truncates toward
 zero, as Java's integer division and `(int)` cast do. `Student.java` computes
 the weights and the divisor with `Math.pow` on doubles; for these exponents
 and magnitudes the doubles are exact integers and the truncating cast of the
 final quotient equals integer division, so both are written here with `Pow2`
 on integers.
 */
module Classification {
  import opened Outcomes
  import opened Marks

  /** Number of years of study before a student graduates. */
  const TotalYears: nat := 3

  /** The value of the classification field. */
  datatype Degree = Pending | FirstClass | UpperSecond | LowerSecond | ThirdClass

  /** The string `Student.java` stores for each degree. */
  function Text(d: Degree): string {
    match d
    case Pending => "Pending"
    case FirstClass => "First Class Honours"
    case UpperSecond => "Second Class Honours (Upper Division)"
    case LowerSecond => "Second Class Honours (Lower Division)"
    case ThirdClass => "Third Class Honours"
  }

  /** Distinct degrees are stored as distinct strings. */
  lemma TextIdentifiesDegree(a: Degree, b: Degree)
    requires Text(a) == Text(b)
    ensures a == b
  {
  }

  /** Order of the degrees, from `Pending` (0) up to `FirstClass` (4). */
  function Rank(d: Degree): nat {
    match d
    case Pending => 0
    case ThirdClass => 1
    case LowerSecond => 2
    case UpperSecond => 3
    case FirstClass => 4
  }

  /** Java's `a / b` for a positive divisor: the quotient rounded toward zero. */
  function Quot(a: int, b: int): (q: int)
    requires b > 0
    ensures a >= 0 ==> 0 <= q && q * b <= a < q * b + b
    ensures a < 0 ==> q <= 0 && q * b - b < a <= q * b
  {
    if a >= 0 then
      DivisionBounds(a, b);
      a / b
    else
      NegatedDivisionBounds(a, b);
      -((-a) / b)
  }

  /** Euclidean division of a natural number: the quotient times the divisor is within one divisor below. */
  lemma DivisionBounds(n: nat, b: int)
    requires b > 0
    ensures 0 <= n / b && (n / b) * b <= n < (n / b) * b + b
  {
    assert n == (n / b) * b + n % b;
  }

  /** Rounding a negative dividend toward zero: the quotient times the divisor is within one divisor above. */
  lemma NegatedDivisionBounds(a: int, b: int)
    requires a < 0 && b > 0
    ensures -((-a) / b) <= 0
    ensures -((-a) / b) * b - b < a <= -((-a) / b) * b
  {
    DivisionBounds(-a, b);
    assert -((-a) / b) * b == -(((-a) / b) * b);
  }

  /** `2^i`, the weight of year index `i`. */
  function Pow2(i: nat): (p: nat)
    ensures p >= 1
  {
    if i == 0 then 1 else 2 * Pow2(i - 1)
  }

  /** Sum of a sequence of marks. */
  function Sum(s: seq<int>): int {
    if s == [] then 0 else s[0] + Sum(s[1..])
  }

  /** The first `n` entries of `marks` exist and each has a full set of modules. */
  predicate FullYears(marks: seq<seq<int>>, n: nat) {
    n <= |marks| && forall i | 0 <= i < n :: |marks[i]| >= ModulesPerYear
  }

  /** Everything the classification reads is present. */
  predicate Complete(marks: seq<seq<int>>) {
    FullYears(marks, TotalYears)
  }

  /**
   The truncated mean of the first `ModulesPerYear` marks of one year. Marks
   in [40, 100] have a mean in [40, 100].
   */
  function YearAverage(ms: seq<int>): (r: int)
    requires |ms| >= ModulesPerYear
    ensures (forall j | 0 <= j < ModulesPerYear :: ValidMark(ms[j])) ==> ValidMark(r)
  {
    var read := ms[..ModulesPerYear];
    // Both branches compute the same value; the first only adds the range fact its ensures needs.
    if forall j | 0 <= j < ModulesPerYear :: ValidMark(ms[j]) then
      SumWithinMarkRange(read);
      Quot(Sum(read), ModulesPerYear)
    else
      Quot(Sum(read), ModulesPerYear)
  }

  /** Six marks in [40, 100] sum to between 240 and 600. */
  lemma SumWithinMarkRange(read: seq<int>)
    requires |read| == ModulesPerYear
    requires forall j | 0 <= j < ModulesPerYear :: ValidMark(read[j])
    ensures LowestMark * ModulesPerYear <= Sum(read) <= (MarkBound - 1) * ModulesPerYear
  {
    var lowest, highest := seq(ModulesPerYear, _ => LowestMark), seq(ModulesPerYear, _ => MarkBound - 1);
    SumMonotone(lowest, read);
    SumMonotone(read, highest);
    SumOfConstant(lowest, LowestMark);
    SumOfConstant(highest, MarkBound - 1);
  }

  /** Every year average among the first `n` years lies in [40, 100]. */
  predicate AveragesInMarkRange(marks: seq<seq<int>>, n: nat)
    requires FullYears(marks, n)
  {
    n == 0 || (AveragesInMarkRange(marks, n - 1) && ValidMark(YearAverage(marks[n - 1])))
  }

  /**
   Sum over the first `n` years of the year average times `2^i`. With every
   year average in [40, 100] the total lies between 40 and 100 times the sum
   of the weights, `2^n - 1`.
   */
  function WeightedTotal(marks: seq<seq<int>>, n: nat): (r: int)
    requires FullYears(marks, n)
    ensures AveragesInMarkRange(marks, n) ==>
              LowestMark * (Pow2(n) - 1) <= r <= (MarkBound - 1) * (Pow2(n) - 1)
  {
    if n == 0 then 0
    else
      var average := YearAverage(marks[n - 1]);
      // Both branches compute the same value; the first only adds the scaling facts its ensures needs.
      if ValidMark(average) then
        ScaleMonotone(LowestMark, average, Pow2(n - 1));
        ScaleMonotone(average, MarkBound - 1, Pow2(n - 1));
        WeightedTotal(marks, n - 1) + average * Pow2(n - 1)
      else
        WeightedTotal(marks, n - 1) + average * Pow2(n - 1)
  }

  /**
   The overall mark: the weighted total divided by the sum of the weights.
   Year averages in [40, 100] give an overall mark in [40, 100].
   */
  function OverallMark(marks: seq<seq<int>>): (r: int)
    requires Complete(marks)
    ensures AveragesInMarkRange(marks, TotalYears) ==> ValidMark(r)
  {
    assert Pow2(TotalYears) == 8;
    Quot(WeightedTotal(marks, TotalYears), Pow2(TotalYears) - 1)
  }

  /** The four thresholds, tried from the highest down; the result is one of the four honours degrees. */
  function Tier(mark: int): (r: Degree)
    ensures r != Pending
  {
    if mark >= 70 then FirstClass
    else if mark >= 60 then UpperSecond
    else if mark >= 50 then LowerSecond
    else ThirdClass
  }

  /** The first read the classification loop makes that fails, scanning years from `i`. */
  function FirstFault(marks: seq<seq<int>>, i: nat): (f: Fault)
    requires i <= TotalYears && FullYears(marks, i) && !Complete(marks)
    ensures f.MissingYear? ==> i <= f.year == |marks| < TotalYears && FullYears(marks, f.year)
    ensures f.MissingModule? ==> i <= f.year < |marks| && f.year < TotalYears && FullYears(marks, f.year)
                                 && f.length == |marks[f.year]| < ModulesPerYear
    decreases TotalYears - i
  {
    if i >= |marks| then MissingYear(i)
    else if |marks[i]| < ModulesPerYear then MissingModule(i, |marks[i]|)
    else FirstFault(marks, i + 1)
  }

  /**
   Computes the classification of a mark history, or the fault raised when a
   year or a module the computation reads is missing. It reads only the first
   `TotalYears` mark sets and the first `ModulesPerYear` marks of each.
   */
  function Classify(marks: seq<seq<int>>): (r: Result<Degree>)
    ensures r.Success? <==> Complete(marks)
    ensures r.Success? ==> r.value != Pending
    ensures r.Failure? && r.fault.MissingYear? ==>
              r.fault.year == |marks| < TotalYears && FullYears(marks, |marks|)
    ensures r.Failure? && r.fault.MissingModule? ==>
              r.fault.year < TotalYears && r.fault.year < |marks| && FullYears(marks, r.fault.year)
              && r.fault.length == |marks[r.fault.year]| < ModulesPerYear
  {
    if Complete(marks) then Success(Tier(OverallMark(marks))) else Failure(FirstFault(marks, 0))
  }

  // ---------------------------------------------------------------------------
  // The weights and the divisor

  /** The divisor is the sum of the weights: 1 + 2 + ... + 2^(n-1) == 2^n - 1. */
  lemma {:induction false} WeightsSumToDivisor(marks: seq<seq<int>>, n: nat, v: int)
    requires FullYears(marks, n)
    requires forall i | 0 <= i < n :: YearAverage(marks[i]) == v
    ensures WeightedTotal(marks, n) == v * (Pow2(n) - 1)
  {
    if n > 0 {
      WeightsSumToDivisor(marks, n - 1, v);
      var p, w := Pow2(n - 1), WeightedTotal(marks, n - 1);
      assert WeightedTotal(marks, n) == w + v * p;
      DoubledWeight(w, v, p);
      assert Pow2(n) == 2 * p;
    }
  }

  /** Adding a weight `p` to the weights `1 + ... + p/2 == p - 1` gives `2p - 1`. */
  lemma DoubledWeight(w: int, v: int, p: int)
    requires w == v * (p - 1)
    ensures w + v * p == v * (2 * p - 1)
  {
  }

  /** When every year has the same average, the overall mark is that average. */
  lemma EqualYearAveragesGiveThatMark(marks: seq<seq<int>>, v: int)
    requires Complete(marks)
    requires forall i | 0 <= i < TotalYears :: YearAverage(marks[i]) == v
    ensures OverallMark(marks) == v
    ensures Classify(marks) == Success(Tier(v))
  {
    WeightsSumToDivisor(marks, TotalYears, v);
    assert Pow2(TotalYears) - 1 == 7;
    assert WeightedTotal(marks, TotalYears) == v * 7;
  }

  // ---------------------------------------------------------------------------
  // Monotonicity

  /** Raising marks pointwise cannot lower their sum. */
  lemma {:induction false} SumMonotone(lo: seq<int>, hi: seq<int>)
    requires |lo| == |hi|
    requires forall j | 0 <= j < |lo| :: lo[j] <= hi[j]
    ensures Sum(lo) <= Sum(hi)
  {
    if lo != [] {
      SumMonotone(lo[1..], hi[1..]);
    }
  }

  /** Truncating division by a positive number is monotone in the dividend. */
  lemma QuotMonotone(a: int, b: int, d: int)
    requires d > 0 && a <= b
    ensures Quot(a, d) <= Quot(b, d)
  {
    var qa, qb := Quot(a, d), Quot(b, d);
    if a >= 0 || b < 0 {
      // In both cases qa * d - d < qb * d, since qa * d <= a <= b < qb * d + d
      // (non-negative) or qa * d - d < a <= b <= qb * d (negative).
      assert qa * d < (qb + 1) * d;
      ProductOrder(qa, qb + 1, d);
    }
  }

  /** Dividing both sides of a strict inequality by a positive factor. */
  lemma ProductOrder(x: int, y: int, d: int)
    requires d > 0 && x * d < y * d
    ensures x < y
  {
    if x >= y {
      ScaleMonotone(y, x, d);
    }
  }

  /** Scaling by a natural number is monotone. */
  lemma ScaleMonotone(a: int, b: int, k: nat)
    requires a <= b
    ensures a * k <= b * k
  {
    assert b * k - a * k == (b - a) * k;
  }

  /** Raising one year's marks pointwise cannot lower that year's average. */
  lemma YearAverageMonotone(lo: seq<int>, hi: seq<int>)
    requires |lo| >= ModulesPerYear && |hi| >= ModulesPerYear
    requires forall j | 0 <= j < ModulesPerYear :: lo[j] <= hi[j]
    ensures YearAverage(lo) <= YearAverage(hi)
  {
    SumMonotone(lo[..ModulesPerYear], hi[..ModulesPerYear]);
    QuotMonotone(Sum(lo[..ModulesPerYear]), Sum(hi[..ModulesPerYear]), ModulesPerYear);
  }

  /** The marks of `lo` are pointwise no higher than those of `hi` wherever the classification reads. */
  predicate Below(lo: seq<seq<int>>, hi: seq<seq<int>>)
    requires Complete(lo) && Complete(hi)
  {
    forall i, j | 0 <= i < TotalYears && 0 <= j < ModulesPerYear :: lo[i][j] <= hi[i][j]
  }

  lemma {:induction false} WeightedTotalMonotone(lo: seq<seq<int>>, hi: seq<seq<int>>, n: nat)
    requires FullYears(lo, n) && FullYears(hi, n)
    requires forall i | 0 <= i < n :: YearAverage(lo[i]) <= YearAverage(hi[i])
    ensures WeightedTotal(lo, n) <= WeightedTotal(hi, n)
  {
    if n > 0 {
      WeightedTotalMonotone(lo, hi, n - 1);
      ScaleMonotone(YearAverage(lo[n - 1]), YearAverage(hi[n - 1]), Pow2(n - 1));
    }
  }

  /** Raising marks pointwise cannot lower the overall mark. */
  lemma OverallMarkMonotone(lo: seq<seq<int>>, hi: seq<seq<int>>)
    requires Complete(lo) && Complete(hi) && Below(lo, hi)
    ensures OverallMark(lo) <= OverallMark(hi)
  {
    forall i | 0 <= i < TotalYears
      ensures YearAverage(lo[i]) <= YearAverage(hi[i])
    {
      YearAverageMonotone(lo[i], hi[i]);
    }
    WeightedTotalMonotone(lo, hi, TotalYears);
    QuotMonotone(WeightedTotal(lo, TotalYears), WeightedTotal(hi, TotalYears), Pow2(TotalYears) - 1);
  }

  /** A higher mark never falls into a lower band. */
  lemma TierMonotone(a: int, b: int)
    requires a <= b
    ensures 1 <= Rank(Tier(a)) <= Rank(Tier(b)) <= 4
  {
  }

  /** Raising marks pointwise never lowers the classification. */
  lemma ClassificationMonotone(lo: seq<seq<int>>, hi: seq<seq<int>>)
    requires Complete(lo) && Complete(hi) && Below(lo, hi)
    ensures Classify(lo).Success? && Classify(hi).Success?
    ensures Rank(Classify(lo).value) <= Rank(Classify(hi).value)
  {
    OverallMarkMonotone(lo, hi);
    TierMonotone(OverallMark(lo), OverallMark(hi));
  }

  // ---------------------------------------------------------------------------
  // Bounds

  /** A history of `TotalYears` years in which every module has mark `v`. */
  function Uniform(v: int): (marks: seq<seq<int>>)
    ensures Complete(marks)
  {
    seq(TotalYears, _ => seq(ModulesPerYear, _ => v))
  }

  lemma {:induction false} SumOfConstant(s: seq<int>, v: int)
    requires forall j | 0 <= j < |s| :: s[j] == v
    ensures Sum(s) == v * |s|
  {
    if s != [] {
      SumOfConstant(s[1..], v);
    }
  }

  /** A history with every mark equal to `v` has overall mark `v`. */
  lemma UniformMark(v: int)
    ensures OverallMark(Uniform(v)) == v
  {
    var marks := Uniform(v);
    forall i | 0 <= i < TotalYears
      ensures YearAverage(marks[i]) == v
    {
      SumOfConstant(marks[i][..ModulesPerYear], v);
    }
    EqualYearAveragesGiveThatMark(marks, v);
  }

  /** When every mark read lies in [40, 100], so does the overall mark. */
  lemma OverallMarkInMarkRange(marks: seq<seq<int>>)
    requires Complete(marks)
    requires forall i, j | 0 <= i < TotalYears && 0 <= j < ModulesPerYear :: ValidMark(marks[i][j])
    ensures LowestMark <= OverallMark(marks) < MarkBound
  {
    OverallMarkMonotone(Uniform(LowestMark), marks);
    OverallMarkMonotone(marks, Uniform(MarkBound - 1));
    UniformMark(LowestMark);
    UniformMark(MarkBound - 1);
  }

  // ---------------------------------------------------------------------------
  // What the classification reads

  /** Histories that agree on the first `TotalYears` sets have the same classification. */
  lemma ClassifyReadsFirstYearsOnly(a: seq<seq<int>>, b: seq<seq<int>>)
    requires |a| >= TotalYears && |b| >= TotalYears
    requires a[..TotalYears] == b[..TotalYears]
    ensures Classify(a) == Classify(b)
  {
    assert forall i | 0 <= i < TotalYears :: a[i] == a[..TotalYears][i] == b[..TotalYears][i] == b[i];
    if Complete(a) {
      assert WeightedTotal(a, 1) == WeightedTotal(b, 1);
      assert WeightedTotal(a, 2) == WeightedTotal(b, 2);
      assert WeightedTotal(a, 3) == WeightedTotal(b, 3);
    } else {
      var fa, fb := Classify(a).fault, Classify(b).fault;
      assert fa.MissingModule? && fb.MissingModule?;
    }
  }

  /** Appending mark sets to a complete history does not change its classification. */
  lemma ClassifyIgnoresLaterYears(marks: seq<seq<int>>, later: seq<seq<int>>)
    requires Complete(marks)
    ensures Classify(marks + later) == Classify(marks)
  {
    assert (marks + later)[..TotalYears] == marks[..TotalYears];
    ClassifyReadsFirstYearsOnly(marks + later, marks);
  }

  // ---------------------------------------------------------------------------
  // Worked examples

  /** Three years of all-100 marks: overall 100, first class. */
  lemma AllHundredsIsFirstClass()
    ensures OverallMark(Uniform(100)) == 100
    ensures Classify(Uniform(100)) == Success(FirstClass)
  {
    UniformMark(100);
  }

  /** Three years of all-40 marks: overall 40, third class. */
  lemma AllFortiesIsThirdClass()
    ensures OverallMark(Uniform(40)) == 40
    ensures Classify(Uniform(40)) == Success(ThirdClass)
  {
    UniformMark(40);
  }

  /** Year averages 70, 60 and 50: weighted total 390, 390 / 7 == 55, lower second. */
  lemma DescendingAveragesIsLowerSecond()
    ensures var marks := [seq(ModulesPerYear, _ => 70), seq(ModulesPerYear, _ => 60), seq(ModulesPerYear, _ => 50)];
            Complete(marks) && WeightedTotal(marks, TotalYears) == 390
            && OverallMark(marks) == 55 && Classify(marks) == Success(LowerSecond)
  {
    var marks := [seq(ModulesPerYear, _ => 70), seq(ModulesPerYear, _ => 60), seq(ModulesPerYear, _ => 50)];
    SumOfConstant(marks[0][..ModulesPerYear], 70);
    SumOfConstant(marks[1][..ModulesPerYear], 60);
    SumOfConstant(marks[2][..ModulesPerYear], 50);
    assert YearAverage(marks[0]) == 70;
    assert YearAverage(marks[1]) == 60;
    assert YearAverage(marks[2]) == 50;
    assert WeightedTotal(marks, 1) == 70;
    assert WeightedTotal(marks, 2) == 70 + 60 * 2;
    assert WeightedTotal(marks, 3) == 70 + 60 * 2 + 50 * 4;
  }
}
