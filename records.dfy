/** The loan table, the boolean row masks built from it, and the aggregates
    the report takes over a masked table: `mask.sum()`, `df[mask]` and the
    mean of the 'Personal Loan' target. */
module Records {
  import opened Wrappers
  import opened Means

  /** A value of the binary target column 'Personal Loan'. */
  type Bit = b: int | 0 <= b <= 1

  /** One row of the table, restricted to the columns the decisions read. */
  datatype Customer = Customer(income: real, ccAvg: real, education: int, personalLoan: Bit)

  /** The loaded table, in row order. */
  type Dataset = seq<Customer>

  /** A row mask: a `>=` comparison of a column with a threshold, an `==`
      comparison of the Education column with a level, or the `&` of two masks. */
  datatype Criterion =
    | IncomeAtLeast(threshold: real)
    | CCAvgAtLeast(threshold: real)
    | EducationIs(level: int)
    | Both(left: Criterion, right: Criterion)

  /** The mask's entry for one row. */
  predicate Holds(c: Criterion, x: Customer)
  {
    match c
    case IncomeAtLeast(t) => x.income >= t
    case CCAvgAtLeast(t) => x.ccAvg >= t
    case EducationIs(l) => x.education == l
    case Both(a, b) => Holds(a, x) && Holds(b, x)
  }

  /** `mask.sum()`: the number of rows the mask keeps. */
  function Count(d: Dataset, c: Criterion): nat
  {
    if d == [] then 0 else (if Holds(c, d[0]) then 1 else 0) + Count(d[1..], c)
  }

  /** `df[mask]`: the rows the mask keeps, in table order. */
  function Select(d: Dataset, c: Criterion): (s: Dataset)
    ensures |s| <= |d|
    ensures forall x :: x in s <==> x in d && Holds(c, x)
  {
    if d == [] then []
    else if Holds(c, d[0]) then [d[0]] + Select(d[1..], c)
    else Select(d[1..], c)
  }

  /** `df[target].sum()`: the number of rows that accepted the loan. */
  function Accepted(d: Dataset): nat
  {
    if d == [] then 0 else d[0].personalLoan + Accepted(d[1..])
  }

  /** No more rows accept than there are rows. */
  lemma {:induction false} AcceptedAtMostRows(d: Dataset)
    ensures Accepted(d) <= |d|
  {
    if d != [] {
      AcceptedAtMostRows(d[1..]);
    }
  }

  /** `df[target].mean()`, the acceptance rate; `None` for the NaN of an empty table. */
  function Rate(d: Dataset): (r: Option<real>)
    ensures r.Some? <==> d != []
    ensures r.Some? ==> 0.0 <= r.value <= 1.0
  {
    if d == [] then None
    else
      AcceptedAtMostRows(d);
      QuotientUnit(Accepted(d) as real, |d| as real);
      Some(Accepted(d) as real / |d| as real)
  }

  /** The rate is the mean of the target: times the number of rows, it gives
      the number of accepting rows. */
  lemma RateIsMean(d: Dataset)
    requires d != []
    ensures Rate(d).value * (|d| as real) == Accepted(d) as real
  {
    QuotientTimes(Rate(d).value, Accepted(d) as real, |d| as real);
  }

  /** The count of a mask is the number of rows of the masked table: the
      `mask.sum()` the report prints and the `df[mask]` whose rate it prints
      describe the same rows. */
  lemma {:induction false} CountIsSelected(d: Dataset, c: Criterion)
    ensures Count(d, c) == |Select(d, c)|
  {
    if d != [] {
      CountIsSelected(d[1..], c);
    }
  }

  /** The masked table holds exactly the rows meeting the criterion, each as
      many times as in the table, and no other row. */
  lemma {:induction false} SelectExactly(d: Dataset, c: Criterion, x: Customer)
    ensures multiset(Select(d, c))[x] == if Holds(c, x) then multiset(d)[x] else 0
  {
    if d != [] {
      SelectExactly(d[1..], c, x);
      assert d == [d[0]] + d[1..];
    }
  }

  /** A mask that keeps every row keeps the whole table. */
  lemma {:induction false} SelectEverything(d: Dataset, c: Criterion)
    requires forall x :: x in d ==> Holds(c, x)
    ensures Select(d, c) == d
  {
    if d != [] {
      SelectEverything(d[1..], c);
      assert d == [d[0]] + d[1..];
    }
  }

  /** A criterion implied by another keeps at least as many rows. */
  lemma {:induction false} CountMonotone(d: Dataset, narrow: Criterion, wide: Criterion)
    requires forall x :: x in d && Holds(narrow, x) ==> Holds(wide, x)
    ensures Count(d, narrow) <= Count(d, wide)
  {
    if d != [] {
      CountMonotone(d[1..], narrow, wide);
    }
  }

  /** The `&` of two masks keeps no more rows than either mask. */
  lemma BothNarrows(d: Dataset, a: Criterion, b: Criterion)
    ensures Count(d, Both(a, b)) <= Count(d, a)
    ensures Count(d, Both(a, b)) <= Count(d, b)
  {
    CountMonotone(d, Both(a, b), a);
    CountMonotone(d, Both(a, b), b);
  }

  /** Raising a `>=` threshold never keeps more rows. */
  lemma ThresholdMonotone(d: Dataset, low: real, high: real)
    requires low <= high
    ensures Count(d, IncomeAtLeast(high)) <= Count(d, IncomeAtLeast(low))
    ensures Count(d, CCAvgAtLeast(high)) <= Count(d, CCAvgAtLeast(low))
  {
    CountMonotone(d, IncomeAtLeast(high), IncomeAtLeast(low));
    CountMonotone(d, CCAvgAtLeast(high), CCAvgAtLeast(low));
  }
}
